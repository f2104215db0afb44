/** KZG vector commitments and openings.  A curve point is represented by its discrete logarithm
    and the pairing is the product of the logarithms, so every pairing equation the program checks
    is an equation between scalars. */
module Kzg {
  import opened Outcomes
  import opened PrimeField
  import opened Polynomial
  import opened Lagrange

  const BRANCHING_FACTOR: nat := 256
  const DEV_TRAPDOOR_TAU: nat := 42

  /** The structured reference string.  `tau` is present only in the in-memory development SRS. */
  datatype Srs = Srs(g1Powers: seq<int>, g2: int, g2Tau: int, tau: Option<int>)

  /** A serialized curve point: either a point or bytes that do not decode. */
  datatype PointBytes = Point(log: int) | Garbage

  /** A slot of a commitment vector: 32 bytes read as a big-endian number, or nothing. */
  type Slot = Option<nat>

  function Pow(x: int, n: nat): int {
    if n == 0 then 1 else x * Pow(x, n - 1)
  }

  /** `srs` consists of the powers of the secret scalar `t`. */
  ghost predicate PowersOf(p: int, srs: Srs, t: int)
    requires p > 0
  {
    && |srs.g1Powers| == BRANCHING_FACTOR
    && (forall i :: 0 <= i < |srs.g1Powers| ==> Eq(p, srs.g1Powers[i], Pow(t, i)))
    && Eq(p, srs.g2Tau, srs.g2 * t)
    && (srs.tau.Some? ==> srs.tau.value == t)
  }

  method BuildPowersOfTau(p: int, tau: int) returns (srs: Srs)
    requires p > 0
    ensures PowersOf(p, srs, tau) && Eq(p, srs.g2, 1) && srs.tau == Some(tau)
  {
    var powers, current := [], 1;
    for i := 0 to BRANCHING_FACTOR
      invariant |powers| == i && current == Pow(tau, i)
      invariant forall j :: 0 <= j < i ==> powers[j] == Pow(tau, j)
    {
      powers := powers + [current];
      current := current * tau;
    }
    srs := Srs(powers, 1, tau, Some(tau));
  }

  // ----- committing to coefficients -------------------------------------------------------

  /** The sum of the products of matching entries; the longer vector is cut. */
  function Dot(points: seq<int>, c: seq<int>): int {
    if points == [] || c == [] then 0 else points[0] * c[0] + Dot(points[1..], c[1..])
  }

  lemma {:induction false} DotAppend(points: seq<int>, c: seq<int>, i: nat)
    requires i < |points| && i < |c|
    ensures Dot(points, c[..i + 1]) == Dot(points, c[..i]) + points[i] * c[i]
  {
    if i == 0 {
      assert c[..1][1..] == [];
    } else {
      DotAppend(points[1..], c[1..], i - 1);
      assert c[..i + 1][1..] == c[1..][..i];
      assert c[..i][1..] == c[1..][..i - 1];
    }
  }

  /** Against the powers of `t`, the inner product is the value of the polynomial at `t`. */
  lemma {:induction false} DotIsEval(p: int, points: seq<int>, c: seq<int>, t: int, k: nat)
    requires p > 0 && |c| <= |points|
    requires forall i :: 0 <= i < |points| ==> Eq(p, points[i], Pow(t, k + i))
    ensures Eq(p, Dot(points, c), Pow(t, k) * Eval(c, t))
    decreases c
  {
    if c != [] {
      forall i | 0 <= i < |points[1..]|
        ensures Eq(p, points[1..][i], Pow(t, k + 1 + i))
      {
        assert points[1..][i] == points[i + 1];
      }
      DotIsEval(p, points[1..], c[1..], t, k + 1);
      assert Pow(t, k + 1) == t * Pow(t, k);
      assert Eq(p, points[0], Pow(t, k + 0));
      DotStep(p, points[0], Pow(t, k), c[0], Dot(points[1..], c[1..]), t, Eval(c[1..], t));
    }
  }

  lemma {:induction false} DotStep(p: int, point: int, w: int, c: int, rest: int, t: int, e: int)
    requires p > 0 && Eq(p, point, w) && Eq(p, rest, t * w * e)
    ensures Eq(p, point * c + rest, w * (c + t * e))
  {
    Refl(p, c);
    MulEq(p, point, w, c, c);
    AddEq(p, point * c, w * c, rest, t * w * e);
    FactorOut(w, c, t, e);
  }

  lemma {:induction false} FactorOut(s: int, c: int, t: int, e: int)
    ensures s * c + t * s * e == s * (c + t * e)
  {
  }

  method CommitCoefficients(srs: Srs, c: seq<int>) returns (commitment: int)
    ensures commitment == Dot(srs.g1Powers, c)
  {
    commitment := 0;
    var i := 0;
    while i < |c| && i < |srs.g1Powers|
      invariant 0 <= i <= |c| && i <= |srs.g1Powers|
      invariant commitment == Dot(srs.g1Powers, c[..i])
    {
      DotAppend(srs.g1Powers, c, i);
      commitment := commitment + srs.g1Powers[i] * c[i];
      i := i + 1;
    }
    if i == |c| {
      assert c[..i] == c;
    } else {
      DotCut(srs.g1Powers, c);
    }
  }

  lemma {:induction false} DotCut(points: seq<int>, c: seq<int>)
    requires |points| <= |c|
    ensures Dot(points, c[..|points|]) == Dot(points, c)
  {
    if points != [] {
      DotCut(points[1..], c[1..]);
      assert c[..|points|][1..] == c[1..][..|points| - 1];
    }
  }

  /** Within the length of the SRS, committing evaluates the polynomial at the secret scalar. */
  lemma {:induction false} CommitIsEval(p: int, srs: Srs, c: seq<int>, t: int)
    requires p > 0 && PowersOf(p, srs, t) && |c| <= BRANCHING_FACTOR
    ensures Eq(p, Dot(srs.g1Powers, c), Eval(c, t))
  {
    DotIsEval(p, srs.g1Powers, c, t, 0);
    assert Pow(t, 0) * Eval(c, t) == Eval(c, t);
  }

  // ----- committing to a vector -----------------------------------------------------------

  function FieldValue(slot: Slot): int {
    if slot.Some? then slot.value else 0
  }

  function SlotAt(values: seq<Slot>, index: nat): Slot {
    if index < |values| then values[index] else None
  }

  /** The evaluations that a slice of slots stands for: missing slots are zero, surplus ones ignored. */
  function Evaluations(values: seq<Slot>): (e: seq<int>)
    ensures |e| == BRANCHING_FACTOR
  {
    seq(BRANCHING_FACTOR, i requires 0 <= i => FieldValue(SlotAt(values, i)))
  }

  /** The committed polynomial at `x`: the interpolant of the slots. */
  function CommittedAt(p: int, values: seq<Slot>, x: int): int
    requires IsPrime(p) && BRANCHING_FACTOR <= p
  {
    InterpolantAt(p, BRANCHING_FACTOR, Evaluations(values), BRANCHING_FACTOR, x)
  }

  /** The commitment to one Lagrange polynomial, by the trapdoor when it is known and through the
      coefficients otherwise. */
  method LagrangeCommitment(p: int, srs: Srs, index: nat, ghost t: int) returns (r: Result<int, KzgError>)
    requires IsPrime(p) && BRANCHING_FACTOR <= p && PowersOf(p, srs, t)
    ensures index >= BRANCHING_FACTOR ==> r == Err(IndexOutOfBounds)
    ensures index < BRANCHING_FACTOR ==>
              r.Ok? && Eq(p, r.value, LagrangeAt(p, BRANCHING_FACTOR, index, t))
  {
    if index < BRANCHING_FACTOR { LagrangePolynomialEval(p, BRANCHING_FACTOR, index, t); }
    if srs.tau.Some? {
      r := LagrangeEvaluation(p, BRANCHING_FACTOR, index, srs.tau.value);
      return;
    }
    var basis := LagrangeBasisCoefficients(p, BRANCHING_FACTOR, index);
    if basis.Err? {
      return Err(basis.error);
    }
    var commitment := CommitCoefficients(srs, basis.value);
    CommitIsEval(p, srs, basis.value, t);
    r := Ok(commitment);
  }

  /** The Lagrange-form commitment to a vector. */
  method CommitmentPoint(p: int, srs: Srs, values: seq<Slot>, ghost t: int) returns (commitment: int)
    requires IsPrime(p) && BRANCHING_FACTOR <= p && PowersOf(p, srs, t)
    ensures Eq(p, commitment, CommittedAt(p, values, t))
  {
    commitment := 0;
    for index := 0 to BRANCHING_FACTOR
      invariant Eq(p, commitment, InterpolantAt(p, BRANCHING_FACTOR, Evaluations(values), index, t))
    {
      var value := FieldValue(SlotAt(values, index));
      ghost var basisAt := LagrangeAt(p, BRANCHING_FACTOR, index, t);
      ghost var before := InterpolantAt(p, BRANCHING_FACTOR, Evaluations(values), index, t);
      if value % p != 0 {
        var basis := LagrangeCommitment(p, srs, index, t);
        Refl(p, value);
        MulEq(p, basis.value, basisAt, value, value);
        AddEq(p, commitment, before, basis.value * value, basisAt * value);
        commitment := commitment + basis.value * value;
      } else {
        AddZero(p, commitment, before, basisAt, value);
      }
    }
  }

  lemma {:induction false} AddZero(p: int, a: int, b: int, c: int, y: int)
    requires p > 0 && Eq(p, a, b) && Eq(p, y, 0)
    ensures Eq(p, a, b + c * y)
  {
    Sym(p, y, 0);
    Refl(p, c);
    MulEq(p, c, c, 0, y);
    AddEq(p, a, b, 0, c * y);
  }

  // ----- interpolation --------------------------------------------------------------------

  function AddScaled(a: seq<int>, b: seq<int>, y: int): (r: seq<int>)
    requires |a| == |b|
    ensures |r| == |a|
  {
    seq(|a|, i requires 0 <= i < |a| => a[i] + b[i] * y)
  }

  lemma {:induction false} AddScaledEval(a: seq<int>, b: seq<int>, y: int, x: int)
    requires |a| == |b|
    ensures Eval(AddScaled(a, b, y), x) == Eval(a, x) + Eval(b, x) * y
  {
    if a != [] {
      AddScaledEval(a[1..], b[1..], y, x);
      assert AddScaled(a, b, y)[1..] == AddScaled(a[1..], b[1..], y);
      Regroup(a[0], b[0], y, x, Eval(a[1..], x), Eval(b[1..], x));
    }
  }

  lemma {:induction false} Regroup(a: int, b: int, y: int, x: int, e: int, f: int)
    ensures a + b * y + x * (e + f * y) == (a + x * e) + (b + x * f) * y
  {
  }

  /** `c` agrees everywhere with the interpolant of the first `k` evaluations. */
  ghost predicate Interpolates(p: int, c: seq<int>, evaluations: seq<int>, k: nat)
    requires IsPrime(p) && k <= |evaluations| <= p
  {
    forall x :: Eq(p, Eval(c, x), InterpolantAt(p, |evaluations|, evaluations, k, x))
  }

  lemma {:induction false} InterpolateTerm(p: int, c: seq<int>, evaluations: seq<int>, k: nat)
    requires IsPrime(p) && k < |evaluations| <= p && |c| == |evaluations|
    requires Interpolates(p, c, evaluations, k)
    ensures Interpolates(p, AddScaled(c, LagrangePolynomial(p, |c|, k), evaluations[k]), evaluations, k + 1)
  {
    var n, y := |c|, evaluations[k];
    forall x
      ensures Eq(p, Eval(AddScaled(c, LagrangePolynomial(p, n, k), y), x), InterpolantAt(p, n, evaluations, k + 1, x))
    {
      AddScaledEval(c, LagrangePolynomial(p, n, k), y, x);
      LagrangePolynomialEval(p, n, k, x);
      var term := LagrangeAt(p, n, k, x) * y;
      Refl(p, term);
      AddEq(p, Eval(c, x), InterpolantAt(p, n, evaluations, k, x), term, term);
    }
  }

  lemma {:induction false} SkipZeroTerm(p: int, c: seq<int>, evaluations: seq<int>, k: nat)
    requires IsPrime(p) && k < |evaluations| <= p
    requires Interpolates(p, c, evaluations, k) && Eq(p, evaluations[k], 0)
    ensures Interpolates(p, c, evaluations, k + 1)
  {
    var n := |evaluations|;
    forall x
      ensures Eq(p, Eval(c, x), InterpolantAt(p, n, evaluations, k + 1, x))
    {
      AddZero(p, Eval(c, x), InterpolantAt(p, n, evaluations, k, x), LagrangeAt(p, n, k, x), evaluations[k]);
    }
  }

  /** The coefficients of the interpolant of a full vector of evaluations. */
  method InterpolateEvaluations(p: int, evaluations: seq<int>) returns (polynomial: seq<int>)
    requires IsPrime(p) && BRANCHING_FACTOR <= p && |evaluations| == BRANCHING_FACTOR
    ensures |polynomial| == BRANCHING_FACTOR
    ensures Interpolates(p, polynomial, evaluations, BRANCHING_FACTOR)
    ensures forall j :: 0 <= j < BRANCHING_FACTOR ==> Eq(p, Eval(polynomial, j), evaluations[j])
  {
    var n := BRANCHING_FACTOR;
    var basis := LagrangeBasis(p, n);
    polynomial := seq(n, _ => 0);
    forall x { ZeroPolynomial(p, polynomial, x); }
    for i := 0 to n
      invariant |polynomial| == n
      invariant Interpolates(p, polynomial, evaluations, i)
    {
      var y := evaluations[i];
      if y % p == 0 {
        SkipZeroTerm(p, polynomial, evaluations, i);
      } else {
        InterpolateTerm(p, polynomial, evaluations, i);
        polynomial := Accumulate(polynomial, basis[i], y);
      }
    }
    forall j | 0 <= j < n
      ensures Eq(p, Eval(polynomial, j), evaluations[j])
    {
      InterpolantOnDomain(p, n, evaluations, n, j);
      Trans(p, Eval(polynomial, j), InterpolantAt(p, n, evaluations, n, j), evaluations[j]);
    }
  }

  /** The Lagrange-form commitment is the monomial commitment of the interpolated coefficients. */
  lemma {:induction false} CommitmentFormsAgree(p: int, srs: Srs, values: seq<Slot>, polynomial: seq<int>, t: int)
    requires IsPrime(p) && BRANCHING_FACTOR <= p && PowersOf(p, srs, t)
    requires |polynomial| == BRANCHING_FACTOR
    requires Interpolates(p, polynomial, Evaluations(values), BRANCHING_FACTOR)
    ensures Eq(p, Dot(srs.g1Powers, polynomial), CommittedAt(p, values, t))
  {
    CommitIsEval(p, srs, polynomial, t);
    Trans(p, Dot(srs.g1Powers, polynomial), Eval(polynomial, t), CommittedAt(p, values, t));
  }

  lemma {:induction false} ZeroPolynomial(p: int, c: seq<int>, x: int)
    requires p > 0 && forall i :: 0 <= i < |c| ==> c[i] == 0
    ensures Eq(p, Eval(c, x), 0)
  {
    EvalAllZero(p, c, x);
  }

  method Accumulate(polynomial: seq<int>, row: seq<int>, y: int) returns (r: seq<int>)
    requires |row| == |polynomial|
    ensures r == AddScaled(polynomial, row, y)
  {
    r := polynomial;
    for degree := 0 to |row|
      invariant |r| == |row|
      invariant forall i :: 0 <= i < degree ==> r[i] == polynomial[i] + row[i] * y
      invariant forall i :: degree <= i < |row| ==> r[i] == polynomial[i]
    {
      r := r[degree := r[degree] + row[degree] * y];
    }
  }

  // ----- opening and verifying ------------------------------------------------------------

  /** The quotient of `c(X) - y` by `X - z`, without the remainder. */
  method QuotientCoefficients(c: seq<int>, z: int, y: int) returns (quotient: seq<int>)
    ensures |quotient| == if c == [] then 0 else |c| - 1
    ensures c != [] ==> forall x :: Eval(c, x) - y == Eval(quotient, x) * (x - z) + (Eval(c, z) - y)
  {
    var adjusted := c;
    if c != [] {
      adjusted := c[0 := c[0] - y];
      assert adjusted[1..] == c[1..];
    }
    quotient := DivideByLinear(adjusted, z);
    forall x
      ensures c != [] ==> Eval(adjusted, x) == Eval(c, x) - y
    {
    }
  }

  /** True when every slot is absent or 32 zero bytes. */
  predicate IsEmpty(values: seq<Slot>) {
    forall i :: 0 <= i < |values| ==> values[i].None? || values[i].value == 0
  }

  /** The pairing check of a single opening. */
  function VerifyOpening(p: int, srs: Srs, commitment: PointBytes, index: nat, value: Slot,
                         proof: PointBytes): Result<bool, KzgError>
    requires p > 0
  {
    if index >= BRANCHING_FACTOR then Err(IndexOutOfBounds)
    else if commitment.Garbage? || proof.Garbage? then Err(MalformedPoint)
    else Ok(Eq(p, (commitment.log - FieldValue(value)) * srs.g2, proof.log * (srs.g2Tau - srs.g2 * index)))
  }

  /** Opening: the returned proof is accepted for the slot's own value by every point that commits
      to the vector, also on the shortcut for the empty vector. */
  method Open(p: int, srs: Srs, values: seq<Slot>, index: nat, ghost t: int) returns (r: Result<int, KzgError>)
    requires IsPrime(p) && BRANCHING_FACTOR <= p && PowersOf(p, srs, t)
    ensures index >= BRANCHING_FACTOR ==> r == Err(IndexOutOfBounds)
    ensures index < BRANCHING_FACTOR ==> r.Ok?
    ensures index < BRANCHING_FACTOR ==>
              var slot := if index < |values| then values[index] else None;
              forall commitment :: Eq(p, commitment, CommittedAt(p, values, t)) ==>
                VerifyOpening(p, srs, Point(commitment), index, slot, Point(r.value)) == Ok(true)
  {
    if index >= BRANCHING_FACTOR {
      return Err(IndexOutOfBounds);
    }
    var y := FieldValue(SlotAt(values, index));
    if IsEmpty(values) {
      forall commitment | Eq(p, commitment, CommittedAt(p, values, t))
        ensures VerifyOpening(p, srs, Point(commitment), index, SlotAt(values, index), Point(0)) == Ok(true)
      {
        EmptyCommitment(p, values, t);
        assert CommittedAt(p, values, t) == 0;
        AcceptQuotient(p, srs, t, commitment, y, index, 0, 0, 0);
      }
      return Ok(0);
    }
    var polynomial := InterpolateEvaluations(p, Evaluations(values));
    var quotient := QuotientCoefficients(polynomial, index, y);
    var proof := CommitCoefficients(srs, quotient);
    CommitIsEval(p, srs, quotient, t);
    forall commitment | Eq(p, commitment, CommittedAt(p, values, t))
      ensures VerifyOpening(p, srs, Point(commitment), index, SlotAt(values, index), Point(proof)) == Ok(true)
    {
      Sym(p, Eval(polynomial, t), CommittedAt(p, values, t));
      Trans(p, commitment, CommittedAt(p, values, t), Eval(polynomial, t));
      assert Eq(p, Eval(polynomial, index), y) by {
        assert Evaluations(values)[index] == y;
      }
      AcceptQuotient(p, srs, t, commitment, y, index, proof, Eval(quotient, t), Eval(polynomial, index) - y);
    }
    r := Ok(proof);
  }

  lemma {:induction false} EmptyInterpolant(p: int, n: nat, e: seq<int>, k: nat, x: int)
    requires IsPrime(p) && k <= n <= p && |e| == n
    requires forall i :: 0 <= i < n ==> e[i] == 0
    ensures InterpolantAt(p, n, e, k, x) == 0
  {
    if k > 0 {
      EmptyInterpolant(p, n, e, k - 1, x);
      assert LagrangeAt(p, n, k - 1, x) * e[k - 1] == 0;
    }
  }

  lemma {:induction false} EmptyCommitment(p: int, values: seq<Slot>, x: int)
    requires IsPrime(p) && BRANCHING_FACTOR <= p && IsEmpty(values)
    ensures CommittedAt(p, values, x) == 0
  {
    EmptyInterpolant(p, BRANCHING_FACTOR, Evaluations(values), BRANCHING_FACTOR, x);
  }

  /** A commitment that equals `y` plus a multiple of `t - z`, up to a vanishing remainder, passes
      the pairing check with that multiple as the proof. */
  lemma {:induction false} AcceptQuotient(p: int, srs: Srs, t: int, commitment: int, y: int, z: nat,
        proof: int, q: int, remainder: int)
    requires p > 0 && PowersOf(p, srs, t)
    requires Eq(p, commitment, q * (t - z) + remainder + y) && Eq(p, remainder, 0) && Eq(p, proof, q)
    ensures Eq(p, (commitment - y) * srs.g2, proof * (srs.g2Tau - srs.g2 * z))
  {
    Refl(p, srs.g2);
    Refl(p, q * (t - z) + y);
    AddEq(p, q * (t - z) + y, q * (t - z) + y, remainder, 0);
    Trans(p, commitment, q * (t - z) + remainder + y, q * (t - z) + y);
    Refl(p, y);
    AddEq(p, commitment, q * (t - z) + y, y, y);
    MulEq(p, commitment - y, q * (t - z), srs.g2, srs.g2);
    Refl(p, srs.g2 * z);
    AddEq(p, srs.g2Tau, srs.g2 * t, srs.g2 * z, srs.g2 * z);
    MulEq(p, proof, q, srs.g2Tau - srs.g2 * z, srs.g2 * t - srs.g2 * z);
    Sym(p, proof * (srs.g2Tau - srs.g2 * z), q * (srs.g2 * t - srs.g2 * z));
    PullOut(q, t, z, srs.g2);
    Trans(p, (commitment - y) * srs.g2, q * (t - z) * srs.g2, proof * (srs.g2Tau - srs.g2 * z));
  }

  lemma {:induction false} PullOut(q: int, t: int, z: int, g: int)
    ensures q * (t - z) * g == q * (g * t - g * z)
  {
  }

  ghost predicate AcceptsOpening(p: int, srs: Srs, commitment: int, index: nat, y: nat, proof: int)
    requires p > 0
  {
    VerifyOpening(p, srs, Point(commitment), index, Some(y), Point(proof)) == Ok(true)
  }

  /** For a fixed commitment, index and proof, exactly one scalar is accepted as the value. */
  lemma {:induction false} OpeningUnique(p: int, srs: Srs, commitment: int, index: nat, proof: int) returns (y: nat)
    requires IsPrime(p) && !Eq(p, srs.g2, 0) && index < BRANCHING_FACTOR
    ensures y < p && AcceptsOpening(p, srs, commitment, index, y, proof)
    ensures forall other: nat :: other < p && AcceptsOpening(p, srs, commitment, index, other, proof) ==> other == y
  {
    var target := proof * (srs.g2Tau - srs.g2 * index);
    y := Solve(p, srs.g2, commitment, target);
    forall other: nat | other < p && AcceptsOpening(p, srs, commitment, index, other, proof)
      ensures other == y
    {
      SolutionUnique(p, srs.g2, commitment, target, y, other);
    }
  }

  lemma {:induction false} Solve(p: int, g: int, c: int, target: int) returns (y: nat)
    requires IsPrime(p) && !Eq(p, g, 0)
    ensures y < p && Eq(p, (c - y) * g, target)
  {
    var inverse := Inverse(p, g).value;
    var exact := c - target * inverse;
    y := exact % p;
    Residue(p, exact);
    Refl(p, c);
    AddEq(p, c, c, y, exact);
    Refl(p, g);
    MulEq(p, c - y, target * inverse, g, g);
    Refl(p, target);
    MulEq(p, target, target, g * inverse, 1);
    assert target * inverse * g == target * (g * inverse);
    Trans(p, (c - y) * g, target * inverse * g, target * 1);
  }

  lemma {:induction false} DifferenceOfProducts(c: int, y: int, z: int, g: int)
    ensures (c - y) * g - (c - z) * g == (z - y) * g
  {
  }

  lemma {:induction false} SolutionUnique(p: int, g: int, c: int, target: int, y: nat, y': nat)
    requires IsPrime(p) && !Eq(p, g, 0) && y < p && y' < p
    requires Eq(p, (c - y) * g, target) && Eq(p, (c - y') * g, target)
    ensures y' == y
  {
    AddEq(p, (c - y) * g, target, (c - y') * g, target);
    DifferenceOfProducts(c, y, y', g);
    NoZeroDivisors(p, y' - y, g);
    if y' != y { DistinctScalars(p, y', y); }
  }

  lemma {:induction false} Residue(p: int, a: int)
    requires p > 0
    ensures Eq(p, a % p, a)
  {
    assert a == p * (a / p) + a % p;
    FromWitness(p, a % p, a, -(a / p));
  }
}
