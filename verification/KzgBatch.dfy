/** Batched verification of KZG openings by a random linear combination with a challenge scalar. */
module KzgBatch {
  import opened Outcomes
  import opened PrimeField
  import opened Polynomial
  import opened Lagrange
  import opened Kzg

  /** One opening of a batch, after its points have been decoded. */
  datatype Opening = Opening(commitment: int, index: nat, value: Slot, proof: int)

  /** The amount by which the pairing equation of an opening fails. */
  function Defect(srs: Srs, o: Opening): int {
    (o.commitment - FieldValue(o.value)) * srs.g2 - o.proof * (srs.g2Tau - srs.g2 * o.index)
  }

  function Defects(srs: Srs, os: seq<Opening>): (d: seq<int>)
    ensures |d| == |os|
  {
    seq(|os|, i requires 0 <= i < |os| => Defect(srs, os[i]))
  }

  ghost predicate Holds(p: int, srs: Srs, o: Opening)
    requires p > 0
  {
    VerifyOpening(p, srs, Point(o.commitment), o.index, o.value, Point(o.proof)) == Ok(true)
  }

  /** The combined equation at challenge `r`. */
  predicate BatchHolds(p: int, srs: Srs, os: seq<Opening>, r: int)
    requires p > 0
  {
    Eq(p, Eval(Defects(srs, os), r), 0)
  }

  // ----- soundness and completeness -------------------------------------------------------

  /** When every opening holds, the batch passes whatever the challenge. */
  lemma {:induction false} BatchComplete(p: int, srs: Srs, os: seq<Opening>, r: int)
    requires p > 0 && forall i :: 0 <= i < |os| ==> Holds(p, srs, os[i])
    ensures BatchHolds(p, srs, os, r)
  {
    forall i | 0 <= i < |os|
      ensures Eq(p, Defects(srs, os)[i], 0)
    {
      assert Holds(p, srs, os[i]);
    }
    EvalAllZero(p, Defects(srs, os), r);
  }

  /** When one of `k` openings fails, at most `k - 1` challenges let the batch pass. */
  lemma {:induction false} BatchSound(p: int, srs: Srs, os: seq<Opening>, bad: nat)
    requires IsPrime(p)
    requires forall i :: 0 <= i < |os| ==> os[i].index < BRANCHING_FACTOR
    requires bad < |os| && !Holds(p, srs, os[bad])
    ensures |set r | 0 <= r < p && BatchHolds(p, srs, os, r)| <= |os| - 1
  {
    var passing := set r | 0 <= r < p && BatchHolds(p, srs, os, r);
    assert !Eq(p, Defects(srs, os)[bad], 0);
    if |passing| >= |os| {
      RootBound(p, Defects(srs, os), passing);
    }
  }

  // ----- the verifiers --------------------------------------------------------------------

  lemma {:induction false} EvalAppend(c: seq<int>, last: int, x: int)
    ensures Eval(c + [last], x) == Eval(c, x) + last * Pow(x, |c|)
  {
    if c == [] {
      assert [last][1..] == [];
      assert c + [last] == [last];
    } else {
      EvalAppend(c[1..], last, x);
      assert (c + [last])[1..] == c[1..] + [last];
      Shift(c[0], x, Eval(c[1..], x), last, Pow(x, |c| - 1));
    }
  }

  lemma {:induction false} Shift(c: int, x: int, e: int, last: int, w: int)
    ensures c + x * (e + last * w) == (c + x * e) + last * (x * w)
  {
  }

  /** The sum of the first defects follows the three accumulators of the single-point loop. */
  lemma {:induction false} DefectStep(srs: Srs, os: seq<Opening>, j: nat, r: int)
    requires j < |os|
    ensures Eval(Defects(srs, os[..j + 1]), r) == Eval(Defects(srs, os[..j]), r) + Defect(srs, os[j]) * Pow(r, j)
  {
    assert Defects(srs, os[..j + 1]) == Defects(srs, os[..j]) + [Defect(srs, os[j])];
    EvalAppend(Defects(srs, os[..j]), Defect(srs, os[j]), r);
  }

  function Log(bytes: PointBytes): int {
    if bytes.Point? then bytes.log else 0
  }

  function Openings(cs: seq<PointBytes>, indices: seq<nat>, values: seq<Slot>, proofs: seq<PointBytes>)
    : (os: seq<Opening>)
    requires |cs| == |indices| == |values| == |proofs|
    ensures |os| == |cs|
  {
    seq(|cs|, i requires 0 <= i < |cs| => Opening(Log(cs[i]), indices[i], values[i], Log(proofs[i])))
  }

  /** What a batch verifier answers: the errors in the order in which they are noticed, and for a
      well-formed batch the combined equation. */
  function Verdict(p: int, srs: Srs, cs: seq<PointBytes>, indices: seq<nat>, values: seq<Slot>,
                   proofs: seq<PointBytes>, r: int): Result<bool, KzgError>
    requires p > 0
  {
    if cs == [] then Ok(true)
    else if !(|indices| == |values| == |proofs| == |cs|) then Err(LengthMismatch)
    else if exists i :: 0 <= i < |indices| && indices[i] >= BRANCHING_FACTOR then Err(IndexOutOfBounds)
    else if Garbage in cs || Garbage in proofs then Err(MalformedPoint)
    else Ok(BatchHolds(p, srs, Openings(cs, indices, values, proofs), r))
  }

  /** The answer to opening `i` of a batch on its own. */
  function Alone(p: int, srs: Srs, cs: seq<PointBytes>, indices: seq<nat>, values: seq<Slot>,
                 proofs: seq<PointBytes>, i: nat): Result<bool, KzgError>
    requires p > 0 && i < |cs| == |indices| == |values| == |proofs|
  {
    VerifyOpening(p, srs, cs[i], indices[i], values[i], proofs[i])
  }

  /** When every opening is accepted on its own, the batch is accepted whatever the challenge. */
  lemma {:induction false} VerdictComplete(p: int, srs: Srs, cs: seq<PointBytes>, indices: seq<nat>,
        values: seq<Slot>, proofs: seq<PointBytes>, r: int)
    requires p > 0 && |cs| == |indices| == |values| == |proofs|
    requires forall i :: 0 <= i < |cs| ==> Alone(p, srs, cs, indices, values, proofs, i) == Ok(true)
    ensures Verdict(p, srs, cs, indices, values, proofs, r) == Ok(true)
  {
    var os := Openings(cs, indices, values, proofs);
    forall i | 0 <= i < |os|
      ensures cs[i].Point? && proofs[i].Point? && indices[i] < BRANCHING_FACTOR && Holds(p, srs, os[i])
    {
      assert Alone(p, srs, cs, indices, values, proofs, i) == Ok(true);
    }
    BatchComplete(p, srs, os, r);
  }

  /** When one of `k` openings is not accepted on its own, at most `k - 1` challenges let the batch be
      accepted. */
  lemma {:induction false} VerdictSound(p: int, srs: Srs, cs: seq<PointBytes>, indices: seq<nat>,
        values: seq<Slot>, proofs: seq<PointBytes>, bad: nat)
    requires IsPrime(p) && bad < |cs| == |indices| == |values| == |proofs|
    requires Alone(p, srs, cs, indices, values, proofs, bad) != Ok(true)
    ensures |set r | 0 <= r < p && Verdict(p, srs, cs, indices, values, proofs, r) == Ok(true)| <= |cs| - 1
  {
    var os := Openings(cs, indices, values, proofs);
    var accepting := set r | 0 <= r < p && Verdict(p, srs, cs, indices, values, proofs, r) == Ok(true);
    if WellFormed(cs, indices, proofs) {
      assert !Holds(p, srs, os[bad]);
      assert accepting == set r | 0 <= r < p && BatchHolds(p, srs, os, r);
      BatchSound(p, srs, os, bad);
    } else {
      assert accepting == {};
    }
  }

  predicate WellFormed(cs: seq<PointBytes>, indices: seq<nat>, proofs: seq<PointBytes>) {
    (forall i :: 0 <= i < |indices| ==> indices[i] < BRANCHING_FACTOR) && Garbage !in cs && Garbage !in proofs
  }

  /** Lists of equal length give an error exactly when one of the openings does on its own, an index
      out of bounds before a malformed point. */
  lemma {:induction false} VerdictErrors(p: int, srs: Srs, cs: seq<PointBytes>, indices: seq<nat>,
        values: seq<Slot>, proofs: seq<PointBytes>, r: int)
    requires p > 0 && |cs| == |indices| == |values| == |proofs|
    ensures var v := Verdict(p, srs, cs, indices, values, proofs, r);
      && (v == Err(IndexOutOfBounds) <==>
          exists i :: 0 <= i < |cs| && Alone(p, srs, cs, indices, values, proofs, i) == Err(IndexOutOfBounds))
      && (v.Err? <==> exists i :: 0 <= i < |cs| && Alone(p, srs, cs, indices, values, proofs, i).Err?)
  {
    forall i | 0 <= i < |cs|
      ensures Alone(p, srs, cs, indices, values, proofs, i) == Err(IndexOutOfBounds) <==> indices[i] >= BRANCHING_FACTOR
      ensures Alone(p, srs, cs, indices, values, proofs, i).Err?
         <==> indices[i] >= BRANCHING_FACTOR || cs[i] == Garbage || proofs[i] == Garbage
    {
    }
  }

  /** No commitments are accepted with anything; otherwise the lists have to be of one length. */
  lemma {:induction false} VerdictShapes(p: int, srs: Srs, cs: seq<PointBytes>, indices: seq<nat>,
        values: seq<Slot>, proofs: seq<PointBytes>, r: int)
    requires p > 0
    ensures var v := Verdict(p, srs, cs, indices, values, proofs, r);
      && (|cs| == 0 ==> v == Ok(true))
      && (v == Err(LengthMismatch) <==>
          |cs| > 0 && (|indices| != |cs| || |values| != |cs| || |proofs| != |cs|))
  {
  }

  /** Openings of several commitments at one index, checked with one pairing equation. */
  method VerifySinglePoint(p: int, srs: Srs, cs: seq<PointBytes>, index: nat, values: seq<Slot>,
                           proofs: seq<PointBytes>, r: int)
    returns (verdict: Result<bool, KzgError>)
    requires p > 0
    ensures verdict == Verdict(p, srs, cs, seq(|cs|, _ => index), values, proofs, r)
  {
    ghost var indices := seq(|cs|, _ => index);
    var k := |cs|;
    if k == 0 {
      return Ok(true);
    }
    if |values| != k || |proofs| != k {
      return Err(LengthMismatch);
    }
    if index >= BRANCHING_FACTOR {
      assert indices[0] >= BRANCHING_FACTOR;
      return Err(IndexOutOfBounds);
    }
    ghost var os := Openings(cs, indices, values, proofs);
    if k == 1 {
      SingletonBatch(p, srs, os, r);
      return VerifyOpening(p, srs, cs[0], index, values[0], proofs[0]);
    }
    var current, commitments, sums, quotients := 1, 0, 0, 0;
    for j := 0 to k
      invariant current == Pow(r, j)
      invariant forall i :: 0 <= i < j ==> cs[i].Point? && proofs[i].Point?
      invariant (commitments - sums) * srs.g2 - quotients * (srs.g2Tau - srs.g2 * index)
             == Eval(Defects(srs, os[..j]), r)
    {
      if cs[j].Garbage? || proofs[j].Garbage? {
        return Err(MalformedPoint);
      }
      var c, proof, y := cs[j].log, proofs[j].log, FieldValue(values[j]);
      DefectStep(srs, os, j, r);
      CombineSingle(commitments, sums, quotients, c, y, proof, current, srs.g2, srs.g2Tau - srs.g2 * index);
      commitments := commitments + c * current;
      sums := sums + y * current;
      quotients := quotients + proof * current;
      PowStep(r, j);
      current := current * r;
    }
    assert os[..k] == os;
    verdict := Ok(Eq(p, (commitments - sums) * srs.g2, quotients * (srs.g2Tau - srs.g2 * index)));
  }

  lemma {:induction false} PowStep(r: int, j: nat)
    ensures Pow(r, j) * r == Pow(r, j + 1)
  {
  }

  lemma {:induction false} CombineSingle(cs: int, ys: int, qs: int, c: int, y: int, q: int, w: int, g: int, h: int)
    ensures (cs + c * w - (ys + y * w)) * g - (qs + q * w) * h == (cs - ys) * g - qs * h + ((c - y) * g - q * h) * w
  {
  }

  lemma {:induction false} SingletonBatch(p: int, srs: Srs, os: seq<Opening>, r: int)
    requires p > 0 && |os| == 1 && os[0].index < BRANCHING_FACTOR
    ensures BatchHolds(p, srs, os, r) <==> Holds(p, srs, os[0])
  {
    assert Defects(srs, os)[1..] == [];
    assert Eval(Defects(srs, os), r) == Defect(srs, os[0]) + r * 0;
  }

  /** Openings at arbitrary indices, checked with one pairing equation. */
  method VerifyMultiPoint(p: int, srs: Srs, cs: seq<PointBytes>, indices: seq<nat>, values: seq<Slot>,
                          proofs: seq<PointBytes>, r: int)
    returns (verdict: Result<bool, KzgError>)
    requires p > 0
    ensures verdict == Verdict(p, srs, cs, indices, values, proofs, r)
  {
    var k := |cs|;
    if k == 0 {
      return Ok(true);
    }
    if |indices| != k || |values| != k || |proofs| != k {
      return Err(LengthMismatch);
    }
    for j := 0 to k
      invariant forall i :: 0 <= i < j ==> indices[i] < BRANCHING_FACTOR
    {
      if indices[j] >= BRANCHING_FACTOR {
        return Err(IndexOutOfBounds);
      }
    }
    ghost var os := Openings(cs, indices, values, proofs);
    if k == 1 {
      SingletonBatch(p, srs, os, r);
      return VerifyOpening(p, srs, cs[0], indices[0], values[0], proofs[0]);
    }
    var current, p1, p2 := 1, 0, 0;
    for j := 0 to k
      invariant current == Pow(r, j)
      invariant forall i :: 0 <= i < j ==> cs[i].Point? && proofs[i].Point?
      invariant p2 * srs.g2 - p1 * srs.g2Tau == Eval(Defects(srs, os[..j]), r)
    {
      if cs[j].Garbage? || proofs[j].Garbage? {
        return Err(MalformedPoint);
      }
      var c, proof, z, y := cs[j].log, proofs[j].log, indices[j], FieldValue(values[j]);
      DefectStep(srs, os, j, r);
      CombineMulti(p1, p2, c, y, proof, z, current, srs.g2, srs.g2Tau);
      p1 := p1 + proof * current;
      p2 := p2 + (proof * z + c - y) * current;
      PowStep(r, j);
      current := current * r;
    }
    assert os[..k] == os;
    EqSwap(p, p1 * srs.g2Tau, p2 * srs.g2);
    verdict := Ok(Eq(p, p1 * srs.g2Tau, p2 * srs.g2));
  }

  lemma {:induction false} CombineMulti(p1: int, p2: int, c: int, y: int, q: int, z: int, w: int, g: int, h: int)
    ensures (p2 + (q * z + c - y) * w) * g - (p1 + q * w) * h == p2 * g - p1 * h + ((c - y) * g - q * (h - g * z)) * w
  {
  }

  lemma {:induction false} EqSwap(p: int, a: int, b: int)
    requires p > 0
    ensures Eq(p, a, b) <==> Eq(p, b - a, 0)
  {
    if Eq(p, a, b) { Sym(p, a, b); }
    if Eq(p, b - a, 0) { Sym(p, b, a); }
  }
}
