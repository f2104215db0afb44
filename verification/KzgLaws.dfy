/** What a vector commitment says about the vector. */
module KzgLaws {
  import opened Outcomes
  import opened PrimeField
  import opened Polynomial
  import opened Lagrange
  import opened Kzg

  /** The number in a slot; an absent slot, and one beyond the end of the vector, counts as zero. */
  ghost function NumberAt(values: seq<Slot>, i: nat): nat {
    if i < |values| && values[i].Some? then values[i].value else 0
  }

  ghost predicate SameAt(p: int, v: seq<Slot>, w: seq<Slot>, i: nat)
    requires p > 0
  {
    Eq(p, NumberAt(v, i), NumberAt(w, i))
  }

  ghost predicate SameVector(p: int, v: seq<Slot>, w: seq<Slot>)
    requires p > 0
  {
    forall i :: 0 <= i < 256 ==> SameAt(p, v, w, i)
  }

  /** The committed polynomial takes the number of each slot at the slot's index. */
  lemma {:induction false} CommittedOnDomain(p: int, values: seq<Slot>, i: nat)
    requires IsPrime(p) && BRANCHING_FACTOR <= p && i < 256
    ensures Eq(p, CommittedAt(p, values, i), NumberAt(values, i))
  {
    InterpolantOnDomain(p, BRANCHING_FACTOR, Evaluations(values), BRANCHING_FACTOR, i);
  }

  lemma {:induction false} CoefficientsUpTo(p: int, e: seq<int>, k: nat) returns (c: seq<int>)
    requires IsPrime(p) && k <= |e| <= p
    ensures |c| == |e| && Interpolates(p, c, e, k)
  {
    if k == 0 {
      c := seq(|e|, _ => 0);
      forall x { ZeroPolynomial(p, c, x); }
    } else {
      c := CoefficientsUpTo(p, e, k - 1);
      InterpolateTerm(p, c, e, k - 1);
      c := AddScaled(c, LagrangePolynomial(p, |c|, k - 1), e[k - 1]);
    }
  }

  /** The difference of two committed polynomials is a polynomial with 256 coefficients. */
  lemma {:induction false} Difference(p: int, v: seq<Slot>, w: seq<Slot>) returns (d: seq<int>)
    requires IsPrime(p) && BRANCHING_FACTOR <= p
    ensures |d| == 256 && forall x :: Eq(p, Eval(d, x), 0) <==> Eq(p, CommittedAt(p, v, x), CommittedAt(p, w, x))
  {
    var a := CoefficientsUpTo(p, Evaluations(v), BRANCHING_FACTOR);
    var b := CoefficientsUpTo(p, Evaluations(w), BRANCHING_FACTOR);
    d := AddScaled(a, b, -1);
    forall x
      ensures Eq(p, Eval(d, x), 0) <==> Eq(p, CommittedAt(p, v, x), CommittedAt(p, w, x))
    {
      AddScaledEval(a, b, -1, x);
      SameDifference(p, Eval(a, x), Eval(b, x), CommittedAt(p, v, x), CommittedAt(p, w, x));
    }
  }

  lemma {:induction false} SameDifference(p: int, a: int, b: int, v: int, w: int)
    requires p > 0 && Eq(p, a, v) && Eq(p, b, w)
    ensures Eq(p, a + b * -1, 0) <==> Eq(p, v, w)
  {
    AddEq(p, a, v, b, w);
    Sym(p, a - b, v - w);
    if Eq(p, a - b, 0) { Trans(p, v - w, a - b, 0); }
    if Eq(p, v - w, 0) { Trans(p, a - b, v - w, 0); }
  }

  ghost function Below(n: nat): (s: set<int>)
    ensures |s| == n && forall i :: i in s <==> 0 <= i < n
  {
    if n == 0 then {} else Below(n - 1) + {n - 1}
  }

  /** Equal vectors have equal commitments under every secret. */
  lemma {:induction false} SameVectorCommits(p: int, v: seq<Slot>, w: seq<Slot>, t: int)
    requires IsPrime(p) && BRANCHING_FACTOR <= p && SameVector(p, v, w)
    ensures Eq(p, CommittedAt(p, v, t), CommittedAt(p, w, t))
  {
    var d := Difference(p, v, w);
    var domain := Below(256);
    forall i | i in domain
      ensures Eq(p, Eval(d, i), 0)
    {
      assert SameAt(p, v, w, i);
      SameAtCommits(p, v, w, i);
    }
    RootBound(p, d, domain);
    EvalAllZero(p, d, t);
  }

  lemma {:induction false} SameAtCommits(p: int, v: seq<Slot>, w: seq<Slot>, i: nat)
    requires IsPrime(p) && BRANCHING_FACTOR <= p && i < 256
    ensures SameAt(p, v, w, i) <==> Eq(p, CommittedAt(p, v, i), CommittedAt(p, w, i))
  {
    CommittedOnDomain(p, v, i);
    CommittedOnDomain(p, w, i);
    SameEq(p, CommittedAt(p, v, i), NumberAt(v, i), CommittedAt(p, w, i), NumberAt(w, i));
  }

  lemma {:induction false} SameEq(p: int, a: int, v: int, b: int, w: int)
    requires p > 0 && Eq(p, a, v) && Eq(p, b, w)
    ensures Eq(p, v, w) <==> Eq(p, a, b)
  {
    Sym(p, a, v);
    Sym(p, b, w);
    if Eq(p, v, w) {
      Trans(p, a, v, w);
      Trans(p, a, w, b);
    }
    if Eq(p, a, b) {
      Trans(p, v, a, b);
      Trans(p, v, b, w);
    }
  }

  /** The secrets under which two vectors have the same commitment. */
  ghost function Collisions(p: int, v: seq<Slot>, w: seq<Slot>): set<int>
    requires IsPrime(p) && BRANCHING_FACTOR <= p
  {
    set t | 0 <= t < p && Eq(p, CommittedAt(p, v, t), CommittedAt(p, w, t))
  }

  /** Binding: two vectors have the same commitment under every secret when they agree in all 256 slots,
      and otherwise under at most 255 secrets. */
  lemma {:induction false} CommitmentBinds(p: int, v: seq<Slot>, w: seq<Slot>)
    requires IsPrime(p) && BRANCHING_FACTOR <= p
    ensures SameVector(p, v, w) ==> forall t :: Eq(p, CommittedAt(p, v, t), CommittedAt(p, w, t))
    ensures !SameVector(p, v, w) ==> |Collisions(p, v, w)| <= 255
  {
    if SameVector(p, v, w) {
      forall t { SameVectorCommits(p, v, w, t); }
    } else {
      var i: nat :| i < 256 && !SameAt(p, v, w, i);
      var d := Difference(p, v, w);
      SameAtCommits(p, v, w, i);
      if |Collisions(p, v, w)| >= |d| {
        RootBound(p, d, Collisions(p, v, w));
        EvalAllZero(p, d, i);
      }
    }
  }
}
