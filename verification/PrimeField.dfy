/** The scalar field of the commitment scheme: the integers modulo a prime.
    A scalar is represented by any integer of its residue class.  Addition, subtraction and
    multiplication are then those of the integers, and every equality test of the program is a
    congruence modulo the prime. */
module PrimeField {
  import opened Basics
  import opened Outcomes

  ghost predicate Divides(d: int, n: int)
    requires d != 0
  {
    n % d == 0
  }

  ghost predicate IsPrime(p: int) {
    p >= 2 && forall d :: 1 < d < p ==> !Divides(d, p)
  }

  /** Field equality. */
  predicate Eq(p: int, a: int, b: int)
    requires p > 0
  {
    (a - b) % p == 0
  }

  // ----- congruences ----------------------------------------------------------------------

  lemma {:induction false} MultipleMod(p: int, k: int)
    requires p > 0
    ensures (k * p) % p == 0
  {
    assert k * p == p * k;
    UniqueRemainder(p, k * p, k, 0);
  }

  /** The quotient that witnesses a congruence. */
  ghost function Witness(p: int, a: int, b: int): (k: int)
    requires p > 0 && Eq(p, a, b)
    ensures a == b + k * p
  {
    (a - b) / p
  }

  lemma {:induction false} FromWitness(p: int, a: int, b: int, k: int)
    requires p > 0 && a == b + k * p
    ensures Eq(p, a, b)
  {
    MultipleMod(p, k);
  }

  lemma {:induction false} Refl(p: int, a: int)
    requires p > 0
    ensures Eq(p, a, a)
  {
  }

  lemma {:induction false} Sym(p: int, a: int, b: int)
    requires p > 0 && Eq(p, a, b)
    ensures Eq(p, b, a)
  {
    var k := Witness(p, a, b);
    FromWitness(p, b, a, -k);
  }

  lemma {:induction false} Trans(p: int, a: int, b: int, c: int)
    requires p > 0 && Eq(p, a, b) && Eq(p, b, c)
    ensures Eq(p, a, c)
  {
    var k, l := Witness(p, a, b), Witness(p, b, c);
    assert (k + l) * p == k * p + l * p;
    FromWitness(p, a, c, k + l);
  }

  lemma {:induction false} AddEq(p: int, a: int, b: int, c: int, d: int)
    requires p > 0 && Eq(p, a, b) && Eq(p, c, d)
    ensures Eq(p, a + c, b + d) && Eq(p, a - c, b - d)
  {
    var k, l := Witness(p, a, b), Witness(p, c, d);
    assert (k + l) * p == k * p + l * p;
    assert (k - l) * p == k * p - l * p;
    FromWitness(p, a + c, b + d, k + l);
    FromWitness(p, a - c, b - d, k - l);
  }

  lemma {:induction false} MulEq(p: int, a: int, b: int, c: int, d: int)
    requires p > 0 && Eq(p, a, b) && Eq(p, c, d)
    ensures Eq(p, a * c, b * d)
  {
    var k, l := Witness(p, a, b), Witness(p, c, d);
    calc {
      a * c;
      (b + k * p) * (d + l * p);
      b * d + (b * l + k * d + k * p * l) * p;
    }
    FromWitness(p, a * c, b * d, b * l + k * d + k * p * l);
  }

  // ----- inverses -------------------------------------------------------------------------

  /** Extended Euclid: a common divisor together with its Bezout coefficients. */
  function ExtendedGcd(a: nat, b: nat): (r: (nat, int, int))
    ensures a * r.1 + b * r.2 == r.0
    ensures a + b > 0 ==> r.0 > 0 && Divides(r.0, a) && Divides(r.0, b)
    decreases b
  {
    if b == 0 then (a, 1, 0)
    else
      var (g, x, y) := ExtendedGcd(b, a % b);
      GcdStep(a, b, g, x, y);
      (g, y, x - (a / b) * y)
  }

  lemma {:induction false} GcdStep(a: nat, b: nat, g: nat, x: int, y: int)
    requires b > 0 && g > 0
    requires b * x + (a % b) * y == g
    requires Divides(g, b) && Divides(g, a % b)
    ensures a * y + b * (x - (a / b) * y) == g
    ensures Divides(g, a)
  {
    var q, m := a / b, a % b;
    assert a == b * q + m;
    BezoutIdentity(a, b, q, m, x, y);
    var s, t := b / g, m / g;
    assert b == s * g && m == t * g;
    CommonFactor(b, q, m, s, t, g);
    MultipleMod(g, s * q + t);
  }

  lemma {:induction false} BezoutIdentity(a: int, b: int, q: int, m: int, x: int, y: int)
    requires a == b * q + m
    ensures a * y + b * (x - q * y) == b * x + m * y
  {
    assert a * y == b * q * y + m * y;
  }

  lemma {:induction false} CommonFactor(b: int, q: int, m: int, s: int, t: int, g: int)
    requires b == s * g && m == t * g
    ensures b * q + m == (s * q + t) * g
  {
    assert (s * q + t) * g == s * g * q + t * g;
  }

  /** The inverse of a scalar: absent exactly for the zero of the field. */
  function Inverse(p: int, a: int): (r: Option<int>)
    requires IsPrime(p)
    ensures r.None? <==> Eq(p, a, 0)
    ensures r.Some? ==> Eq(p, a * r.value, 1)
  {
    if a % p == 0 then None
    else
      var (g, x, y) := ExtendedGcd(a % p, p);
      InverseWorks(p, a, g, x, y);
      Some(x)
  }

  lemma {:induction false} InverseWorks(p: int, a: int, g: nat, x: int, y: int)
    requires IsPrime(p) && a % p != 0
    requires g > 0 && Divides(g, a % p) && Divides(g, p)
    requires (a % p) * x + p * y == g
    ensures Eq(p, a * x, 1)
  {
    var q, m := a / p, a % p;
    DivisorBelow(g, m);
    assert g == 1;
    assert a == p * q + m;
    InverseIdentity(p, a, q, m, x, y);
    FromWitness(p, a * x, 1, q * x - y);
  }

  lemma {:induction false} DivisorBelow(g: int, m: int)
    requires g > 0 && m > 0 && Divides(g, m)
    ensures g <= m
  {
    var t := m / g;
    assert m == g * t;
    LargeMultiple(g, t);
  }

  lemma {:induction false} InverseIdentity(p: int, a: int, q: int, m: int, x: int, y: int)
    requires a == p * q + m && m * x + p * y == 1
    ensures a * x == 1 + (q * x - y) * p
  {
    assert a * x == p * q * x + m * x;
    assert (q * x - y) * p == p * q * x - p * y;
  }

  /** Euclid's lemma: the field has no zero divisors. */
  lemma {:induction false} NoZeroDivisors(p: int, a: int, b: int)
    requires IsPrime(p) && Eq(p, a * b, 0)
    ensures Eq(p, a, 0) || Eq(p, b, 0)
  {
    var inv := Inverse(p, a);
    if inv.Some? {
      var x := inv.value;
      Refl(p, x);
      Refl(p, b);
      MulEq(p, a * b, 0, x, x);
      MulEq(p, a * x, 1, b, b);
      assert a * b * x == a * x * b;
      Sym(p, a * x * b, 1 * b);
      Trans(p, b, a * x * b, 0);
    }
  }
}
