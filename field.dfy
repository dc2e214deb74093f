/**
  The prime field the parameter generator works over.

  The generator is generic over an `ark_ff::PrimeField`; here the field is the
  integers modulo one fixed prime `P`. Every operation reduces its result into
  `0 .. P-1`, so field arithmetic is exact and never rounds. The value of `P`
  matters to `PrimeHasNoFactors` and to the concrete matrices of `Fixtures`,
  whose entries reach 61 and whose inverses are residues modulo 101; the
  proofs of the other modules hold for any prime.
 */
module Field {

  /** The field modulus. */
  const P: nat := 101

  /** A field element, kept in canonical form. */
  type Fe = x: int | 0 <= x < P

  function Add(a: Fe, b: Fe): Fe { (a + b) % P }

  function Sub(a: Fe, b: Fe): Fe { (a - b) % P }

  function Neg(a: Fe): Fe { (P - a) % P }

  function Mul(a: Fe, b: Fe): Fe { (a * b) % P }

  /** `P` has no factorisation into two factors both greater than one. */
  lemma PrimeHasNoFactors(d: int, q: int)
    requires 1 < d < P
    ensures d * q != P
  {
    MulSign(d, q);
    if q <= 1 {
    } else if d <= 10 {
      assert d == 2 || d == 3 || d == 4 || d == 5 || d == 6 || d == 7 || d == 8 || d == 9 || d == 10;
    } else if q <= 10 {
      assert q == 2 || q == 3 || q == 4 || q == 5 || q == 6 || q == 7 || q == 8 || q == 9 || q == 10;
    } else {
      assert d * q >= 11 * q;
    }
  }

  /** The sign of a product of a positive factor. */
  lemma MulSign(g: int, c: int)
    ensures g > 0 && c <= 0 ==> g * c <= 0
    ensures g > 0 && c > 0 ==> g * c >= g
  {
  }

  /**
    Extended Euclid on naturals: `(g, x, y, ca, cb)` with `a*x + b*y == g`,
    `a == g*ca` and `b == g*cb`, so `g` is a common divisor that is also an
    integer combination of `a` and `b`.
   */
  function ExtGcd(a: nat, b: nat): (r: (nat, int, int, int, int))
    ensures a * r.1 + b * r.2 == r.0
    ensures a == r.0 * r.3 && b == r.0 * r.4
    ensures a > 0 || b > 0 ==> r.0 > 0
    decreases b
  {
    if b == 0 then (a, 1, 0, 1, 0)
    else
      var (g, x, y, cb, cr) := ExtGcd(b, a % b);
      ExtGcdStep(a, b, g, x, y, cb, cr);
      (g, y, x - (a / b) * y, (a / b) * cb + cr, cb)
  }

  /** One step of Euclid's algorithm keeps Bezout's identity and the common divisor. */
  lemma ExtGcdStep(a: nat, b: nat, g: int, x: int, y: int, cb: int, cr: int)
    requires b > 0
    requires b * x + (a % b) * y == g
    requires b == g * cb && a % b == g * cr
    ensures a * y + b * (x - (a / b) * y) == g
    ensures a == g * ((a / b) * cb + cr)
  {
    var q, r := a / b, a % b;
    assert a == q * b + r;
    assert a * y + b * (x - q * y) == b * x + (a - q * b) * y;
    assert g * (q * cb + cr) == q * (g * cb) + g * cr;
  }

  /** Reducing a factor modulo `P` does not change a product modulo `P`. */
  lemma MulModRight(a: int, y: int)
    ensures (a * (y % P)) % P == (a * y) % P
  {
    var k := y / P;
    assert y == P * k + y % P;
    assert a * y == P * (a * k) + a * (y % P);
  }

  /** The multiplicative inverse of a non-zero element, from Bezout's identity for `P` and `a`. */
  function Inv(a: Fe): (r: Fe)
    requires a != 0
    ensures Mul(a, r) == 1
  {
    var e := ExtGcd(P, a);
    assert e.0 == 1 by {
      MulSign(e.0, e.4);
      if e.0 != 1 { PrimeHasNoFactors(e.0, e.3); }
    }
    MulModRight(a, e.2);
    assert a * e.2 == 1 - P * e.1;
    e.2 % P
  }

  function Div(a: Fe, b: Fe): Fe
    requires b != 0
  {
    Mul(a, Inv(b))
  }

  /** An element has at most one inverse, so `Inv` is the inverse. */
  lemma InvUnique(a: Fe, x: Fe)
    requires Mul(a, x) == 1
    ensures a != 0 && Inv(a) == x
  {
    var y := Inv(a);
    MulUnits(x);
    MulUnits(y);
    MulAssociative(x, a, y);
    MulCommutative(x, a);
    assert x == Mul(x, Mul(a, y)) == Mul(Mul(a, x), y) == y;
  }

  lemma MulAssociative(a: Fe, b: Fe, c: Fe)
    ensures Mul(Mul(a, b), c) == Mul(a, Mul(b, c))
  {
    var ab, bc := a * b, b * c;
    calc {
      Mul(Mul(a, b), c);
      ((ab % P) * c) % P;
      { assert (ab % P) * c == c * (ab % P); }
      (c * (ab % P)) % P;
      { MulModRight(c, ab); }
      (c * ab) % P;
      { assert c * ab == a * bc; }
      (a * bc) % P;
      { MulModRight(a, bc); }
      Mul(a, Mul(b, c));
    }
  }

  /** Zero annihilates, one is neutral, multiplication commutes. */
  lemma MulUnits(a: Fe)
    ensures Mul(0, a) == 0 && Mul(a, 0) == 0
    ensures Mul(1, a) == a && Mul(a, 1) == a
  {
  }

  lemma MulCommutative(a: Fe, b: Fe)
    ensures Mul(a, b) == Mul(b, a)
  {
  }

  /** Zero is neutral for addition and subtraction, and `a - a == 0`. */
  lemma AddUnits(a: Fe)
    ensures Add(0, a) == a && Add(a, 0) == a && Sub(a, 0) == a && Sub(a, a) == 0
  {
  }

  lemma AddAssociative(a: Fe, b: Fe, c: Fe)
    ensures Add(Add(a, b), c) == Add(a, Add(b, c))
  {
  }

  lemma AddCommutative(a: Fe, b: Fe)
    ensures Add(a, b) == Add(b, a)
  {
  }

  /** `a - b` is `a` plus the negation of `b`. */
  lemma SubIsAddNeg(a: Fe, b: Fe)
    ensures Sub(a, b) == Add(a, Neg(b))
  {
  }

  /** Reducing a summand modulo `P` does not change a sum modulo `P`. */
  lemma AddModRight(a: int, y: int)
    ensures (a + y % P) % P == (a + y) % P
  {
    var k := y / P;
    assert y == P * k + y % P;
  }

  /** Multiplication distributes over addition. */
  lemma Distributive(a: Fe, b: Fe, c: Fe)
    ensures Mul(Add(a, b), c) == Add(Mul(a, c), Mul(b, c))
  {
    var ac, bc := a * c, b * c;
    calc {
      Mul(Add(a, b), c);
      (c * ((a + b) % P)) % P;
      { MulModRight(c, a + b); }
      (c * (a + b)) % P;
      { assert c * (a + b) == ac + bc; }
      (ac + bc) % P;
      { AddModRight(ac, bc); }
      (ac + bc % P) % P;
      { AddModRight(bc % P, ac); }
      (ac % P + bc % P) % P;
    }
  }

  /** Negation commutes with multiplication: `u * (-v) == -(u * v)`. */
  lemma MulNeg(u: Fe, v: Fe)
    ensures Mul(u, Neg(v)) == Neg(Mul(u, v))
  {
    var uv := u * v;
    var q, r := uv / P, uv % P;
    assert uv == P * q + r;
    MulModRight(u, P - v);
    assert u * (P - v) == P * (u - q - 1) + (P - r);
    ModShift(P - r, u - q - 1);
  }

  /** Adding a multiple of `P` does not change a residue. */
  lemma ModShift(x: int, k: int)
    ensures (P * k + x) % P == x % P
  {
  }

  /** The powers of a field element (`pow` on field elements). */
  function Pow(x: Fe, e: nat): Fe
  {
    if e == 0 then 1 else Mul(x, Pow(x, e - 1))
  }

  /** The powers of `-1` alternate between `1` and `-1`. */
  lemma {:induction false} PowNegOne(e: nat)
    ensures Pow(Neg(1), e) == if e % 2 == 0 then 1 else Neg(1)
  {
    if e > 0 {
      PowNegOne(e - 1);
      assert Mul(Neg(1), 1) == Neg(1) && Mul(Neg(1), Neg(1)) == 1;
    }
  }

  /** Negation is an involution. */
  lemma NegNeg(u: Fe)
    ensures Neg(Neg(u)) == u
  {
  }

  /** Negation commutes with multiplication on the left factor: `(-u) * v == -(u * v)`. */
  lemma NegMulLeft(u: Fe, v: Fe)
    ensures Mul(Neg(u), v) == Neg(Mul(u, v))
  {
    MulNeg(v, u);
    MulCommutative(Neg(u), v);
    MulCommutative(u, v);
  }

  /** `(xs)(ys) == x(y(ss))`. */
  lemma ScaledProduct(x: Fe, y: Fe, s: Fe)
    ensures Mul(Mul(x, s), Mul(y, s)) == Mul(x, Mul(y, Mul(s, s)))
  {
    MulAssociative(x, s, Mul(y, s));
    MulAssociative(s, y, s);
    MulCommutative(s, y);
    MulAssociative(y, s, s);
  }

  /**
    The identity behind the `2 x 2` inverse: `x(ys) + u((-v)s) == (xy - uv)s`.
   */
  lemma CrossTerms(x: Fe, y: Fe, u: Fe, v: Fe, s: Fe)
    ensures Add(Mul(x, Mul(y, s)), Mul(u, Mul(Neg(v), s))) == Mul(Sub(Mul(x, y), Mul(u, v)), s)
  {
    MulAssociative(x, y, s);
    MulAssociative(u, Neg(v), s);
    Distributive(Mul(x, y), Mul(u, Neg(v)), s);
    MulNeg(u, v);
    SubIsAddNeg(Mul(x, y), Mul(u, v));
  }
}
