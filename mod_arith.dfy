/** Modular exponentiation by square-and-multiply over arbitrary-precision
    non-negative integers, as the bigint helper `modPow` computes it. */
module ModArith {
  import opened Wrappers

  /** b raised to the e-th power. */
  function Pow(b: nat, e: nat): nat
    decreases e
  {
    if e == 0 then 1 else b * Pow(b, e - 1)
  }

  lemma {:induction false} PowAdd(b: nat, e1: nat, e2: nat)
    ensures Pow(b, e1 + e2) == Pow(b, e1) * Pow(b, e2)
    decreases e1
  {
    if e1 > 0 {
      PowAdd(b, e1 - 1, e2);
      assert Pow(b, e1 + e2) == b * Pow(b, e1 - 1 + e2);
      assert b * (Pow(b, e1 - 1) * Pow(b, e2)) == (b * Pow(b, e1 - 1)) * Pow(b, e2);
    }
  }

  lemma {:induction false} PowMul(b: nat, e: nat)
    ensures Pow(b * b, e) == Pow(b, 2 * e)
    decreases e
  {
    if e > 0 {
      PowMul(b, e - 1);
      PowAdd(b, 2, 2 * (e - 1));
      assert Pow(b, 2) == b * b;
      assert 2 * e == 2 + 2 * (e - 1);
    }
  }

  /** Reducing a factor before multiplying does not change the product modulo m. */
  lemma MulMod(a: nat, b: nat, m: nat)
    requires m > 0
    ensures (a * b) % m == ((a % m) * b) % m
  {
    var q := a / m;
    assert a == q * m + a % m;
    assert a * b == (a % m) * b + (q * b) * m by {
      assert a * b == (q * m + a % m) * b;
    }
    ModAddMultiple((a % m) * b, q * b, m);
  }

  lemma MulAtLeast(k: int, m: int)
    requires k >= 1 && m > 0
    ensures k * m >= m
  {
    assert k * m == (k - 1) * m + m;
  }

  /** A quotient and remainder are determined by the dividend. */
  lemma DivModUnique(y: int, q: int, r: int, m: int)
    requires m > 0 && 0 <= r < m && y == q * m + r
    ensures y % m == r && y / m == q
  {
    var q', r' := y / m, y % m;
    assert (q - q') * m == r' - r;
    if q' < q {
      MulAtLeast(q - q', m);
    } else if q < q' {
      MulAtLeast(q' - q, m);
    }
  }

  lemma ModAddMultiple(x: nat, k: nat, m: nat)
    requires m > 0
    ensures (x + k * m) % m == x % m
  {
    var q, r := x / m, x % m;
    assert x + k * m == (q + k) * m + r;
    DivModUnique(x + k * m, q + k, r, m);
  }

  /** Reducing the base before exponentiating does not change the power modulo m. */
  lemma {:induction false} PowMod(b: nat, e: nat, m: nat)
    requires m > 0
    ensures Pow(b % m, e) % m == Pow(b, e) % m
    decreases e
  {
    if e > 0 {
      var x := b % m;
      var p1, p2 := Pow(x, e - 1), Pow(b, e - 1);
      assert Pow(x, e) == x * p1;
      assert Pow(b, e) == b * p2;
      PowMod(b, e - 1, m);
      assert p1 % m == p2 % m;
      MulMod(p1, x, m);
      MulMod(p2, x, m);
      MulMod(b, p2, m);
      assert (p1 * x) % m == (p2 * x) % m;
      assert x * p1 == p1 * x && x * p2 == p2 * x;
    }
  }

  /** One loop step keeps result * base^exponent fixed modulo m. */
  lemma StepKeepsProduct(result: nat, base: nat, exponent: nat, m: nat)
    requires m > 0 && exponent > 0
    ensures var result' := if exponent % 2 == 1 then (result * base) % m else result;
            (result' * Pow((base * base) % m, exponent / 2)) % m == (result * Pow(base, exponent)) % m
  {
    var half := exponent / 2;
    var p := Pow(base * base, half);
    PowMul(base, half);
    calc {
      (Pow((base * base) % m, half) % m);
      { PowMod(base * base, half, m); }
      p % m;
    }
    if exponent % 2 == 1 {
      PowAdd(base, 1, 2 * half);
      assert Pow(base, exponent) == base * p;
      calc {
        (((result * base) % m) * Pow((base * base) % m, half)) % m;
        { MulMod(Pow((base * base) % m, half), (result * base) % m, m); }
        ((Pow((base * base) % m, half) % m) * ((result * base) % m)) % m;
        ((p % m) * ((result * base) % m)) % m;
        { MulMod(p, (result * base) % m, m); }
        (p * ((result * base) % m)) % m;
        { MulMod(result * base, p, m); }
        ((result * base) * p) % m;
        { assert (result * base) * p == result * (base * p); }
        (result * Pow(base, exponent)) % m;
      }
    } else {
      assert Pow(base, exponent) == p;
      calc {
        (result * Pow((base * base) % m, half)) % m;
        { MulMod(Pow((base * base) % m, half), result, m); }
        ((Pow((base * base) % m, half) % m) * result) % m;
        ((p % m) * result) % m;
        { MulMod(p, result, m); }
        (p * result) % m;
      }
    }
  }

  /** `modPow(base, exponent, modulus)`: 0 when the modulus is 1, base^exponent
      mod modulus otherwise, and a RangeError (bigint remainder by zero) when the
      modulus is 0. */
  method ModPow(base: nat, exponent: nat, modulus: nat) returns (r: Result<nat>)
    ensures modulus == 0 <==> r == Err(RangeError)
    ensures modulus > 0 ==> r.Ok? && r.value == Pow(base, exponent) % modulus
    ensures modulus > 0 ==> r.Ok? && r.value < modulus
  {
    if modulus == 1 {
      return Ok(0);
    }
    if modulus == 0 {
      return Err(RangeError);
    }
    var result: nat := 1;
    var b: nat := base % modulus;
    var e: nat := exponent;
    PowMod(base, exponent, modulus);
    assert result * Pow(b, e) == Pow(b, e);
    while e > 0
      invariant result < modulus && b < modulus
      invariant (result * Pow(b, e)) % modulus == Pow(base, exponent) % modulus
      decreases e
    {
      StepKeepsProduct(result, b, e, modulus);
      if e % 2 == 1 {
        result := (result * b) % modulus;
      }
      e := e / 2;
      b := (b * b) % modulus;
    }
    assert result * Pow(b, e) == result;
    DivModUnique(result, 0, result, modulus);
    return Ok(result);
  }
}
