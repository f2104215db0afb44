/** Polynomials with integer coefficients, constant term first, read modulo a prime. */
module Polynomial {
  import opened PrimeField

  /** Horner evaluation. */
  function Eval(c: seq<int>, x: int): int {
    if c == [] then 0 else c[0] + x * Eval(c[1..], x)
  }

  ghost predicate AllZero(p: int, c: seq<int>)
    requires p > 0
  {
    forall i :: 0 <= i < |c| ==> Eq(p, c[i], 0)
  }

  // ----- multiplication by a linear factor ------------------------------------------------

  /** The coefficients of `prev + c(X) * (X - r)`. */
  function MulAdd(prev: int, c: seq<int>, r: int): (m: seq<int>)
    ensures |m| == |c| + 1
    decreases c
  {
    if c == [] then [prev] else [prev - c[0] * r] + MulAdd(c[0], c[1..], r)
  }

  /** The coefficients of `c(X) * (X - r)`. */
  function MulLinear(c: seq<int>, r: int): seq<int> {
    MulAdd(0, c, r)
  }

  lemma {:induction false} MulAddEval(prev: int, c: seq<int>, r: int, x: int)
    ensures Eval(MulAdd(prev, c, r), x) == prev + Eval(c, x) * (x - r)
    decreases c
  {
    if c == [] {
      assert MulAdd(prev, c, r)[1..] == [];
    } else {
      var e := Eval(c[1..], x);
      MulAddEval(c[0], c[1..], r, x);
      assert MulAdd(prev, c, r)[1..] == MulAdd(c[0], c[1..], r);
      ExpandProduct(prev, c[0], r, x, e);
    }
  }

  lemma {:induction false} ExpandProduct(prev: int, c: int, r: int, x: int, e: int)
    ensures prev - c * r + x * (c + e * (x - r)) == prev + (c + x * e) * (x - r)
  {
  }

  lemma {:induction false} MulAddAt(prev: int, c: seq<int>, r: int, i: nat)
    requires i <= |c|
    ensures MulAdd(prev, c, r)[i] == (if i == 0 then prev else c[i - 1]) - (if i < |c| then c[i] * r else 0)
    decreases c
  {
    if c != [] && i > 0 {
      MulAddAt(c[0], c[1..], r, i - 1);
    }
  }

  lemma {:induction false} MulAddDrop(prev: int, c: seq<int>, r: int, i: nat)
    requires i < |c|
    ensures MulAdd(prev, c, r)[i + 1..] == MulAdd(c[i], c[i + 1..], r)
    decreases c
  {
    if i == 0 {
      assert MulAdd(prev, c, r)[1..] == MulAdd(c[0], c[1..], r);
    } else {
      MulAddDrop(c[0], c[1..], r, i - 1);
      assert MulAdd(prev, c, r)[i + 1..] == MulAdd(c[0], c[1..], r)[i..];
      assert c[1..][i..] == c[i + 1..];
    }
  }

  /** Linear factors may be multiplied in any order. */
  lemma {:induction false} MulLinearCommute(c: seq<int>, a: int, b: int)
    ensures MulLinear(MulLinear(c, a), b) == MulLinear(MulLinear(c, b), a)
  {
    var ab, ba := MulLinear(MulLinear(c, a), b), MulLinear(MulLinear(c, b), a);
    forall i | 0 <= i < |c| + 2
      ensures ab[i] == ba[i]
    {
      MulTwiceAt(c, a, b, i);
      MulTwiceAt(c, b, a, i);
      assert a * b == b * a;
      assert CoefficientAt(c, i) * (a * b) == CoefficientAt(c, i) * (b * a);
    }
  }

  function CoefficientAt(c: seq<int>, i: int): int {
    if 0 <= i < |c| then c[i] else 0
  }

  lemma {:induction false} MulTwiceAt(c: seq<int>, a: int, b: int, i: nat)
    requires i < |c| + 2
    ensures MulLinear(MulLinear(c, a), b)[i] ==
            CoefficientAt(c, i - 2) - CoefficientAt(c, i - 1) * (a + b) + CoefficientAt(c, i) * (a * b)
  {
    var m := MulLinear(c, a);
    MulAddAt(0, m, b, i);
    if i <= |c| { MulAddAt(0, c, a, i); }
    if i > 0 { MulAddAt(0, c, a, i - 1); }
    var u, v, w := CoefficientAt(c, i - 2), CoefficientAt(c, i - 1), CoefficientAt(c, i);
    assert CoefficientAt(m, i) == v - w * a;
    assert CoefficientAt(m, i - 1) == u - v * a;
    ExpandPair(u, v, w, a, b);
  }

  lemma {:induction false} ExpandPair(u: int, v: int, w: int, a: int, b: int)
    ensures (u - v * a) - (v - w * a) * b == u - v * (a + b) + w * (a * b)
  {
  }

  // ----- division by a linear factor ------------------------------------------------------

  /** The quotient of `c(X)` by `X - root`: its entries are the Horner carries. */
  function Quotient(c: seq<int>, root: int): (q: seq<int>)
    ensures |q| == if c == [] then 0 else |c| - 1
  {
    if |c| <= 1 then [] else [Eval(c[1..], root)] + Quotient(c[1..], root)
  }

  lemma {:induction false} QuotientAt(c: seq<int>, root: int, i: nat)
    requires i + 1 < |c|
    ensures Quotient(c, root)[i] == Eval(c[i + 1..], root)
  {
    if i > 0 {
      QuotientAt(c[1..], root, i - 1);
      assert c[1..][i..] == c[i + 1..];
    }
  }

  /** Division with remainder; the remainder is the value at the root (the factor theorem). */
  lemma {:induction false} Division(c: seq<int>, root: int, x: int)
    ensures Eval(c, x) == Eval(Quotient(c, root), x) * (x - root) + Eval(c, root)
  {
    if |c| == 1 {
      assert c[1..] == [];
    } else if |c| > 1 {
      var t := c[1..];
      Division(t, root, x);
      var q, e, r := Quotient(t, root), Eval(t, root), Eval(Quotient(t, root), x);
      assert Quotient(c, root) == [e] + q;
      assert ([e] + q)[1..] == q;
      ExpandQuotient(c[0], x, r, root, e);
    }
  }

  lemma {:induction false} ExpandQuotient(c: int, x: int, q: int, root: int, e: int)
    ensures c + x * (q * (x - root) + e) == (e + x * q) * (x - root) + (c + root * e)
  {
  }

  /** Dividing a product by the factor that was multiplied in gives the other factor back. */
  lemma {:induction false} QuotientOfProduct(c: seq<int>, r: int)
    ensures Quotient(MulLinear(c, r), r) == c
  {
    var m := MulLinear(c, r);
    forall i | 0 <= i < |c|
      ensures Quotient(m, r)[i] == c[i]
    {
      QuotientAt(m, r, i);
      MulAddDrop(0, c, r, i);
      MulAddEval(c[i], c[i + 1..], r, r);
      assert Eval(c[i + 1..], r) * (r - r) == 0;
    }
  }

  // ----- roots modulo a prime -------------------------------------------------------------

  lemma {:induction false} EvalAllZero(p: int, c: seq<int>, x: int)
    requires p > 0 && AllZero(p, c)
    ensures Eq(p, Eval(c, x), 0)
  {
    if c != [] {
      EvalAllZero(p, c[1..], x);
      MulEq(p, x, x, Eval(c[1..], x), 0);
      AddEq(p, c[0], 0, x * Eval(c[1..], x), x * 0);
    }
  }

  lemma {:induction false} AllZeroFromQuotient(p: int, c: seq<int>, r: int)
    requires p > 0 && Eq(p, Eval(c, r), 0) && AllZero(p, Quotient(c, r))
    ensures AllZero(p, c)
  {
    forall i | 0 <= i < |c|
      ensures Eq(p, c[i], 0)
    {
      var suffix, rest := Eval(c[i..], r), Eval(c[i + 1..], r);
      assert c[i..][1..] == c[i + 1..];
      assert suffix == c[i] + r * rest;
      assert Eq(p, suffix, 0) by {
        if i == 0 { assert c[0..] == c; } else { QuotientAt(c, r, i - 1); }
      }
      assert Eq(p, rest, 0) by {
        if i + 1 < |c| { QuotientAt(c, r, i); }
      }
      Refl(p, r);
      MulEq(p, r, r, rest, 0);
      AddEq(p, suffix, 0, r * rest, r * 0);
    }
  }

  /** A polynomial that is not zero modulo `p` has fewer roots among the scalars than it has
      coefficients. */
  lemma {:induction false} RootBound(p: int, c: seq<int>, roots: set<int>)
    requires IsPrime(p)
    requires forall r :: r in roots ==> 0 <= r < p && Eq(p, Eval(c, r), 0)
    requires |roots| >= |c|
    ensures AllZero(p, c)
    decreases |c|
  {
    if c != [] {
      assert |roots| > 0;
      var r := Pick(roots);
      var q, others := Quotient(c, r), roots - {r};
      forall x | x in others
        ensures Eq(p, Eval(q, x), 0)
      {
        Division(c, r, x);
        AddEq(p, Eval(c, x), 0, Eval(c, r), 0);
        assert Eval(q, x) * (x - r) == Eval(c, x) - Eval(c, r);
        NoZeroDivisors(p, Eval(q, x), x - r);
        DistinctScalars(p, x, r);
      }
      assert |others| == |roots| - 1;
      RootBound(p, q, others);
      AllZeroFromQuotient(p, c, r);
    }
  }

  ghost function Pick<T>(s: set<T>): (x: T)
    requires s != {}
    ensures x in s
  {
    var x :| x in s;
    x
  }

  lemma {:induction false} DistinctScalars(p: int, a: int, b: int)
    requires p > 0 && -p < a - b < p && a != b
    ensures !Eq(p, a - b, 0)
  {
  }
}
