/** The ALIGN(x, a) rounding used for container lengths and image file offsets. */
module Alignment {

  /** x rounded up to the next multiple of the quantum a. */
  function Align(x: nat, a: nat): (r: nat)
    requires a > 0
    ensures r % a == 0
    ensures x <= r < x + a
  {
    var q := (x + a - 1) / a;
    DivMod(x + a - 1, a);
    DivOfMultiple(q * a, a, q, 0);
    q * a
  }

  /** The rounded value is the least multiple of a that is not below x. */
  lemma AlignLeast(x: nat, a: nat, m: nat)
    requires a > 0 && m % a == 0 && x <= m
    ensures Align(x, a) <= m
  {
    var r := Align(x, a);
    if m < r {
      ModSub(r, m, a);
      assert false;
    }
  }

  /** Aligning a multiple of a leaves it unchanged, and only a multiple is unchanged. */
  lemma AlignFixed(x: nat, a: nat)
    requires a > 0
    ensures Align(x, a) == x <==> x % a == 0
  {
    if x % a == 0 { AlignLeast(x, a, x); }
  }

  /** An aligned base can be pulled out of the rounding: ALIGN(base + x) == base + ALIGN(x). */
  lemma AlignShift(base: nat, x: nat, a: nat)
    requires a > 0 && base % a == 0
    ensures Align(base + x, a) == base + Align(x, a)
  {
    var r := Align(x, a);
    var s := Align(base + x, a);
    ModAdd(base, r, a);
    AlignLeast(base + x, a, base + r);
    if x == 0 {
      AlignFixed(0, a);
      AlignFixed(base, a);
    } else {
      ModSub(s, base, a);
      AlignLeast(x, a, s - base);
    }
  }

  // Arithmetic helpers: each step is small enough for the solver's nonlinear reasoning.

  lemma DivMod(x: nat, a: nat)
    requires a > 0
    ensures x == (x / a) * a + x % a && 0 <= x % a < a
  {}

  lemma AtLeastOnce(d: int, a: int)
    requires d >= 1 && a > 0
    ensures d * a >= a
  {}

  lemma Distribute(q: int, q': int, a: int)
    ensures q * a - q' * a == (q - q') * a
    ensures q * a + q' * a == (q + q') * a
  {}

  /** The quotient and remainder of x by a are the only ones with 0 <= r < a. */
  lemma DivOfMultiple(x: nat, a: nat, q: nat, r: nat)
    requires a > 0 && r < a && x == q * a + r
    ensures x / a == q && x % a == r
  {
    var q' := x / a;
    DivMod(x, a);
    if q' < q {
      Distribute(q, q', a);
      AtLeastOnce(q - q', a);
      assert false;
    } else if q' > q {
      Distribute(q', q, a);
      AtLeastOnce(q' - q, a);
      assert false;
    }
  }

  lemma ModSub(p: nat, q: nat, a: nat)
    requires a > 0 && p % a == 0 && q % a == 0 && q < p
    ensures (p - q) % a == 0 && p - q >= a
  {
    DivMod(p, a);
    DivMod(q, a);
    var i, j := p / a, q / a;
    Distribute(i, j, a);
    assert i > j;
    AtLeastOnce(i - j, a);
    DivOfMultiple(p - q, a, i - j, 0);
  }

  lemma ModAdd(p: nat, q: nat, a: nat)
    requires a > 0 && p % a == 0 && q % a == 0
    ensures (p + q) % a == 0
  {
    DivMod(p, a);
    DivMod(q, a);
    Distribute(p / a, q / a, a);
    DivOfMultiple(p + q, a, p / a + q / a, 0);
  }

  lemma Associate(i: int, j: int, q: int)
    ensures i * (j * q) == (i * j) * q
  {}

  lemma ModTransitive(x: nat, b: nat, q: nat)
    requires b > 0 && q > 0 && x % b == 0 && b % q == 0
    ensures x % q == 0
  {
    DivMod(x, b);
    DivMod(b, q);
    var i, j := x / b, b / q;
    Associate(i, j, q);
    DivOfMultiple(x, q, i * j, 0);
  }

  /** Adding v units of p moves the quotient by v and keeps the remainder. */
  lemma DivAddMultiple(a: nat, v: nat, p: nat)
    requires p > 0
    ensures (a + v * p) / p == a / p + v
  {
    DivMod(a, p);
    Distribute(a / p, v, p);
    DivOfMultiple(a + v * p, p, a / p + v, a % p);
  }

  /** A multiple of q plus a v below q leaves remainder v. */
  lemma ModAddSmall(h: nat, v: nat, q: nat)
    requires q > 0 && h % q == 0 && v < q
    ensures (h + v) % q == v
  {
    DivMod(h, q);
    DivOfMultiple(h + v, q, h / q, v);
  }
}
