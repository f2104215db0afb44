/** The Lagrange basis over the domain 0, 1, .., n - 1, and the three ways in which it is computed:
    as a product of linear factors, by dividing the vanishing polynomial, and pointwise. */
module Lagrange {
  import opened Outcomes
  import opened PrimeField
  import opened Polynomial

  datatype KzgError = IndexOutOfBounds | LengthMismatch | MalformedPoint

  // ----- reference definitions ------------------------------------------------------------

  /** The product of `x - j` over the domain points `j != i`. */
  function Numerator(i: nat, n: nat, x: int): int {
    if n == 0 then 1
    else if n - 1 == i then Numerator(i, n - 1, x)
    else Numerator(i, n - 1, x) * (x - (n - 1))
  }

  /** The value at `x` of the `i`-th Lagrange polynomial. */
  function LagrangeAt(p: int, n: nat, i: nat, x: int): int
    requires IsPrime(p) && i < n <= p
  {
    DenominatorInvertible(p, n, i);
    Numerator(i, n, x) * Inverse(p, Numerator(i, n, i)).value
  }

  /** The value at `x` of the polynomial that interpolates the first `k` values. */
  function InterpolantAt(p: int, n: nat, values: seq<int>, k: nat, x: int): int
    requires IsPrime(p) && k <= n <= p && |values| == n
  {
    if k == 0 then 0
    else InterpolantAt(p, n, values, k - 1, x) + LagrangeAt(p, n, k - 1, x) * values[k - 1]
  }

  lemma {:induction false} NumeratorVanishes(i: nat, n: nat, j: nat)
    requires j < n && j != i
    ensures Numerator(i, n, j) == 0
  {
    if j == n - 1 {
      assert Numerator(i, n, j) == Numerator(i, n - 1, j) * (j - j);
    } else {
      NumeratorVanishes(i, n - 1, j);
    }
  }

  lemma {:induction false} NumeratorNonzero(p: int, i: nat, n: nat, bound: nat)
    requires IsPrime(p) && i < bound && n <= bound <= p
    ensures !Eq(p, Numerator(i, n, i), 0)
  {
    if n == 0 {
      DistinctScalars(p, 1, 0);
    } else {
      NumeratorNonzero(p, i, n - 1, bound);
      if n - 1 != i {
        DistinctScalars(p, i, n - 1);
        if Eq(p, Numerator(i, n, i), 0) {
          NoZeroDivisors(p, Numerator(i, n - 1, i), i - (n - 1));
        }
      }
    }
  }

  lemma {:induction false} DenominatorInvertible(p: int, n: nat, i: nat)
    requires IsPrime(p) && i < n <= p
    ensures Inverse(p, Numerator(i, n, i)).Some?
  {
    NumeratorNonzero(p, i, n, n);
  }

  /** A Lagrange polynomial is 1 at its own index and 0 at the others. */
  lemma {:induction false} LagrangeDelta(p: int, n: nat, i: nat, j: nat)
    requires IsPrime(p) && i < n <= p && j < n
    ensures Eq(p, LagrangeAt(p, n, i, j), if i == j then 1 else 0)
  {
    if i == j {
      DenominatorInvertible(p, n, i);
    } else {
      NumeratorVanishes(i, n, j);
    }
  }

  /** The interpolant takes the given values on the domain. */
  lemma {:induction false} InterpolantOnDomain(p: int, n: nat, values: seq<int>, k: nat, j: nat)
    requires IsPrime(p) && k <= n <= p && |values| == n && j < n
    ensures Eq(p, InterpolantAt(p, n, values, k, j), if j < k then values[j] else 0)
  {
    if k > 0 {
      var previous := InterpolantAt(p, n, values, k - 1, j);
      InterpolantOnDomain(p, n, values, k - 1, j);
      LagrangeDelta(p, n, k - 1, j);
      var delta := if k - 1 == j then 1 else 0;
      Refl(p, values[k - 1]);
      MulEq(p, LagrangeAt(p, n, k - 1, j), delta, values[k - 1], values[k - 1]);
      AddEq(p, previous, if j < k - 1 then values[j] else 0,
            LagrangeAt(p, n, k - 1, j) * values[k - 1], delta * values[k - 1]);
    }
  }

  // ----- coefficient form -----------------------------------------------------------------

  function ProductExcept(i: nat, n: nat): (c: seq<int>)
    ensures |c| == if i < n then n else n + 1
  {
    if n == 0 then [1]
    else if n - 1 == i then ProductExcept(i, n - 1)
    else MulLinear(ProductExcept(i, n - 1), n - 1)
  }

  function Vanishing(n: nat): (c: seq<int>)
    ensures |c| == n + 1
  {
    if n == 0 then [1] else MulLinear(Vanishing(n - 1), n - 1)
  }

  function Scale(c: seq<int>, s: int): (r: seq<int>)
    ensures |r| == |c|
  {
    seq(|c|, i requires 0 <= i < |c| => c[i] * s)
  }

  /** The coefficients of the `i`-th Lagrange polynomial. */
  function LagrangePolynomial(p: int, n: nat, i: nat): (c: seq<int>)
    requires IsPrime(p) && i < n <= p
    ensures |c| == n
  {
    DenominatorInvertible(p, n, i);
    Scale(ProductExcept(i, n), Inverse(p, Numerator(i, n, i)).value)
  }

  lemma {:induction false} ScaleEval(c: seq<int>, s: int, x: int)
    ensures Eval(Scale(c, s), x) == Eval(c, x) * s
  {
    if c != [] {
      ScaleEval(c[1..], s, x);
      assert Scale(c, s)[1..] == Scale(c[1..], s);
      Distribute(c[0], s, x, Eval(c[1..], x));
    }
  }

  lemma {:induction false} Distribute(c: int, s: int, x: int, e: int)
    ensures c * s + x * (e * s) == (c + x * e) * s
  {
  }

  lemma {:induction false} ProductExceptEval(i: nat, n: nat, x: int)
    ensures Eval(ProductExcept(i, n), x) == Numerator(i, n, x)
  {
    if n == 0 {
      assert [1][1..] == [];
    } else {
      ProductExceptEval(i, n - 1, x);
      if n - 1 != i {
        MulAddEval(0, ProductExcept(i, n - 1), n - 1, x);
      }
    }
  }

  lemma {:induction false} LagrangePolynomialEval(p: int, n: nat, i: nat, x: int)
    requires IsPrime(p) && i < n <= p
    ensures Eval(LagrangePolynomial(p, n, i), x) == LagrangeAt(p, n, i, x)
  {
    DenominatorInvertible(p, n, i);
    ProductExceptEval(i, n, x);
    ScaleEval(ProductExcept(i, n), Inverse(p, Numerator(i, n, i)).value, x);
  }

  lemma {:induction false} ProductExceptOutside(i: nat, n: nat)
    requires n <= i
    ensures ProductExcept(i, n) == Vanishing(n)
  {
    if n > 0 { ProductExceptOutside(i, n - 1); }
  }

  /** The vanishing polynomial is the product without `i`, times the missing factor. */
  lemma {:induction false} VanishingSplits(i: nat, n: nat)
    requires i < n
    ensures Vanishing(n) == MulLinear(ProductExcept(i, n), i)
  {
    if n - 1 == i {
      ProductExceptOutside(i, n - 1);
    } else {
      VanishingSplits(i, n - 1);
      MulLinearCommute(ProductExcept(i, n - 1), i, n - 1);
    }
  }

  // ----- the computations -----------------------------------------------------------------

  /** One step of the product builders: multiply a coefficient vector by `X - r` in place. */
  method TimesLinear(c: seq<int>, r: int) returns (next: seq<int>)
    ensures next == MulLinear(c, r)
  {
    next := seq(|c| + 1, _ => 0);
    for degree := 0 to |c|
      invariant |next| == |c| + 1
      invariant forall i :: 0 <= i < degree ==> next[i] == MulLinear(c, r)[i]
      invariant next[degree] == if degree == 0 then 0 else c[degree - 1]
      invariant forall i :: degree < i <= |c| ==> next[i] == 0
    {
      next := next[degree := next[degree] - c[degree] * r];
      next := next[degree + 1 := next[degree + 1] + c[degree]];
      MulAddAt(0, c, r, degree);
    }
    MulAddAt(0, c, r, |c|);
  }

  /** Synthetic division: the quotient by `X - root`, dropping the remainder. */
  method DivideByLinear(c: seq<int>, root: int) returns (quotient: seq<int>)
    ensures |quotient| == if c == [] then 0 else |c| - 1
    ensures forall x :: Eval(c, x) == Eval(quotient, x) * (x - root) + Eval(c, root)
    ensures quotient == Quotient(c, root)
  {
    quotient := seq(if c == [] then 0 else |c| - 1, _ => 0);
    var carry := if c == [] then 0 else c[|c| - 1];
    assert c != [] ==> c[|c| - 1..] == [carry];
    var index := |quotient|;
    while index > 0
      invariant |quotient| == (if c == [] then 0 else |c| - 1) && 0 <= index <= |quotient|
      invariant c != [] ==> carry == Eval(c[index..], root)
      invariant forall i :: index <= i < |quotient| ==> quotient[i] == Eval(c[i + 1..], root)
    {
      index := index - 1;
      quotient := quotient[index := carry];
      assert c[index..][1..] == c[index + 1..];
      carry := c[index] + carry * root;
    }
    forall i | 0 <= i < |quotient|
      ensures quotient[i] == Quotient(c, root)[i]
    {
      QuotientAt(c, root, i);
    }
    assert quotient == Quotient(c, root);
    forall x { Division(c, root, x); }
  }

  method VanishingPolynomial(n: nat) returns (polynomial: seq<int>)
    ensures polynomial == Vanishing(n)
    ensures forall j :: 0 <= j < n ==> Eval(polynomial, j) == 0
  {
    polynomial := [1];
    for i := 0 to n
      invariant polynomial == Vanishing(i)
    {
      polynomial := TimesLinear(polynomial, i);
    }
    forall j | 0 <= j < n
      ensures Eval(polynomial, j) == 0
    {
      VanishingSplits(j, n);
      MulAddEval(0, ProductExcept(j, n), j, j);
      assert Eval(ProductExcept(j, n), j) * (j - j) == 0;
    }
  }

  /** First route: the product form, row by row. */
  method LagrangeBasis(p: int, n: nat) returns (all: seq<seq<int>>)
    requires IsPrime(p) && n <= p
    ensures |all| == n
    ensures forall i :: 0 <= i < n ==> all[i] == LagrangePolynomial(p, n, i)
    ensures forall i, j :: 0 <= i < n && 0 <= j < n ==> Eq(p, Eval(all[i], j), if i == j then 1 else 0)
  {
    all := [];
    for i := 0 to n
      invariant |all| == i
      invariant forall k :: 0 <= k < i ==> all[k] == LagrangePolynomial(p, n, k)
    {
      var basis, denominator := [1], 1;
      for j := 0 to n
        invariant basis == ProductExcept(i, j) && denominator == Numerator(i, j, i)
      {
        if i != j {
          basis := TimesLinear(basis, j);
          denominator := denominator * (i - j);
        }
      }
      DenominatorInvertible(p, n, i);
      var inverse := Inverse(p, denominator).value;
      basis := Scale(basis, inverse);
      all := all + [basis];
    }
    forall i, j | 0 <= i < n && 0 <= j < n
      ensures Eq(p, Eval(all[i], j), if i == j then 1 else 0)
    {
      LagrangePolynomialEval(p, n, i, j);
      LagrangeDelta(p, n, i, j);
    }
  }

  /** Second route: divide the vanishing polynomial and normalise.  It gives the same coefficients
      as the product form. */
  method LagrangeBasisCoefficients(p: int, n: nat, index: nat) returns (r: Result<seq<int>, KzgError>)
    requires IsPrime(p) && n <= p
    ensures index >= n ==> r == Err(IndexOutOfBounds)
    ensures index < n ==> r == Ok(LagrangePolynomial(p, n, index))
  {
    if index >= n {
      return Err(IndexOutOfBounds);
    }
    var vanishing := VanishingPolynomial(n);
    var basis := DivideByLinear(vanishing, index);
    VanishingSplits(index, n);
    QuotientOfProduct(ProductExcept(index, n), index);
    ProductExceptEval(index, n, index);
    DenominatorInvertible(p, n, index);
    var denominator := Eval(basis, index);
    var inverse := Inverse(p, denominator).value;
    r := Ok(Scale(basis, inverse));
  }

  /** Third route: the value of the Lagrange polynomial at one point. */
  method LagrangeEvaluation(p: int, n: nat, index: nat, point: int) returns (r: Result<int, KzgError>)
    requires IsPrime(p) && n <= p
    ensures index >= n ==> r == Err(IndexOutOfBounds)
    ensures index < n ==> r == Ok(Eval(LagrangePolynomial(p, n, index), point))
  {
    if index >= n {
      return Err(IndexOutOfBounds);
    }
    var numerator, denominator := 1, 1;
    for j := 0 to n
      invariant numerator == Numerator(index, j, point) && denominator == Numerator(index, j, index)
    {
      if j != index {
        numerator := numerator * (point - j);
        denominator := denominator * (index - j);
      }
    }
    DenominatorInvertible(p, n, index);
    LagrangePolynomialEval(p, n, index, point);
    r := Ok(numerator * Inverse(p, denominator).value);
  }
}
