/** Verification of quorum certificates, and what two accepted certificates have in common. */
module Certificates {
  import opened Basics
  import opened Validators
  import opened Votes

  /** A signature names what was signed, and by whom; anything else is rejected bytes. */
  datatype Signature = Signed(signer: Address, hash: BlockHash, view: nat, phase: Phase) | Invalid

  datatype Certificate = Certificate(hash: BlockHash, view: nat, phase: Phase, signatures: seq<Signature>,
                                     validators: seq<Address>)

  ghost predicate SignedByAll(qc: Certificate) {
    |qc.signatures| == |qc.validators|
    && forall i :: 0 <= i < |qc.validators| ==> qc.signatures[i] == Signed(qc.validators[i], qc.hash, qc.view, qc.phase)
  }

  ghost predicate Verifies(vs: ValidatorSet, qc: Certificate) {
    && SignedByAll(qc) && Distinct(qc.validators) && Members(qc.validators) <= Active(vs)
    && |qc.validators| >= QuorumThreshold(vs)
  }

  ghost predicate Accepted(vs: ValidatorSet, qc: Certificate) {
    Verifies(vs, qc) && Saturated(Power(vs, Members(qc.validators)), MAX_U64) >= RequiredPower(vs)
  }

  method Verify(vs: ValidatorSet, qc: Certificate) returns (ok: bool)
    ensures ok <==> Verifies(vs, qc)
  {
    if |qc.signatures| != |qc.validators| || |qc.validators| < QuorumThreshold(vs) {
      return false;
    }
    var seen: set<Address> := {};
    for i := 0 to |qc.validators|
      invariant seen == Members(qc.validators[..i]) && seen <= Active(vs) && Distinct(qc.validators[..i])
      invariant forall j :: 0 <= j < i ==> qc.signatures[j] == Signed(qc.validators[j], qc.hash, qc.view, qc.phase)
    {
      var address := qc.validators[i];
      MembersGrow(qc.validators, i);
      if address in seen {
        Repeated(qc.validators, i);
        return false;
      }
      seen := seen + {address};
      if address !in vs || !vs[address].active {
        assert address in Members(qc.validators);
        return false;
      }
      if qc.signatures[i] != Signed(address, qc.hash, qc.view, qc.phase) {
        return false;
      }
    }
    assert qc.validators[..|qc.validators|] == qc.validators;
    return true;
  }

  lemma {:induction false} Repeated(list: seq<Address>, i: nat)
    requires i < |list| && list[i] in Members(list[..i])
    ensures !Distinct(list)
  {
  }

  method VerifyWithVotingPower(vs: ValidatorSet, active: seq<Address>, qc: Certificate) returns (ok: bool)
    requires Distinct(active) && Members(active) == Active(vs)
    ensures ok <==> Accepted(vs, qc)
  {
    var verified := Verify(vs, qc);
    if !verified {
      return false;
    }
    var required := RequiredQuorumVotingPower(vs, active);
    var total := SumPower(vs, qc.validators);
    return total >= required;
  }

  /** The validators that signed both certificates. */
  ghost function BothSigned(p: Certificate, q: Certificate): set<Address> {
    Members(p.validators) * Members(q.validators)
  }

  /** The signers of an accepted certificate meet both thresholds, and every such set signs one. */
  lemma {:induction false} AcceptedIsQuorum(vs: ValidatorSet, qc: Certificate)
    requires Accepted(vs, qc)
    ensures MeetsQuorum(vs, Members(qc.validators))
  {
    DistinctSize(qc.validators);
  }

  lemma {:induction false} CertificateOf(vs: ValidatorSet, who: set<Address>, hash: BlockHash) returns (qc: Certificate)
    requires MeetsQuorum(vs, who)
    ensures Accepted(vs, qc) && Members(qc.validators) == who
    ensures qc.hash == hash && qc.view == 0 && qc.phase == Commit
  {
    var list := Enumerate(who, |who|);
    DistinctSize(list);
    if Members(list) != who {
      var a :| a in who && a !in Members(list);
      SubsetSize(Members(list), who - {a});
    }
    var signatures := seq(|list|, i requires 0 <= i < |list| => Signed(list[i], hash, 0, Commit));
    qc := Certificate(hash, 0, Commit, signatures, list);
  }

  ghost predicate ShareThird(vs: ValidatorSet, p: Certificate, q: Certificate) {
    (Accepted(vs, p) && Accepted(vs, q)) ==> 3 * Power(vs, BothSigned(p, q)) > Power(vs, Active(vs))
  }

  ghost predicate CertificatesAlwaysOverlap(total: nat) {
    forall vs: ValidatorSet, p: Certificate, q: Certificate :: HasTotal(vs, total) ==> ShareThird(vs, p, q)
  }

  /** Any two accepted certificates are signed in common by more than a third of the power, for all
      validator sets of a total, exactly when the total is positive and at most 2^64; beyond, two
      blocks can be certified in one view and phase with less in common. */
  lemma {:induction false} CertificatePowerExactly(total: nat)
    ensures CertificatesAlwaysOverlap(total) <==> 0 < total <= MAX_U64 + 1
  {
    PowerOverlapExactly(total);
    if 0 < total <= MAX_U64 + 1 {
      forall vs: ValidatorSet, p: Certificate, q: Certificate | HasTotal(vs, total)
        ensures ShareThird(vs, p, q)
      {
        if Accepted(vs, p) && Accepted(vs, q) {
          AcceptedIsQuorum(vs, p);
          AcceptedIsQuorum(vs, q);
          assert SharesThird(vs, Members(p.validators), Members(q.validators));
        }
      }
    } else {
      var vs, a, b := Separated(total);
      var p := CertificateOf(vs, a, BlockHash(0));
      var q := CertificateOf(vs, b, BlockHash(1));
      assert !ShareThird(vs, p, q);
    }
  }

  /** Two accepted certificates are signed in common by more than a third of the active validators
      and, while the total is at most 2^64, by more than a third of their power; so if they certify
      different blocks in one view and phase, that many have signed conflicting votes. */
  lemma {:induction false} CertificatesOverlap(vs: ValidatorSet, p: Certificate, q: Certificate)
    requires Accepted(vs, p) && Accepted(vs, q) && Active(vs) != {}
    ensures 3 * |BothSigned(p, q)| > |Active(vs)|
    ensures 0 < Power(vs, Active(vs)) <= MAX_U64 + 1 ==> 3 * Power(vs, BothSigned(p, q)) > Power(vs, Active(vs))
    ensures forall a :: a in BothSigned(p, q) ==> HasSigned(p, a) && HasSigned(q, a)
  {
    var a, b := Members(p.validators), Members(q.validators);
    DistinctSize(p.validators);
    DistinctSize(q.validators);
    CountOverlap(vs, a, b);
    if 0 < Power(vs, Active(vs)) <= MAX_U64 + 1 {
      PowerQuorumOverlap(vs, a, b);
    }
  }

  ghost predicate HasSigned(qc: Certificate, a: Address) {
    exists i :: 0 <= i < |qc.signatures| && qc.signatures[i] == Signed(a, qc.hash, qc.view, qc.phase)
  }

  /** No validator in `honest` signs two different blocks in one view and phase. */
  ghost predicate Consistent(honest: set<Address>, p: Certificate, q: Certificate) {
    (p.view == q.view && p.phase == q.phase && p.hash != q.hash) ==>
      forall a :: a in honest ==> !HasSigned(p, a) || !HasSigned(q, a)
  }

  /** While at most a third of the active validators are faulty, all accepted certificates of one
      view and phase certify the same block. */
  lemma {:induction false} CertificateUnique(vs: ValidatorSet, honest: set<Address>, p: Certificate, q: Certificate)
    requires Accepted(vs, p) && Accepted(vs, q) && p.view == q.view && p.phase == q.phase
    requires Active(vs) != {} && 3 * |Active(vs) - honest| <= |Active(vs)| && Consistent(honest, p, q)
    ensures p.hash == q.hash
  {
    var a, b := Members(p.validators), Members(q.validators);
    DistinctSize(p.validators);
    DistinctSize(q.validators);
    CountOverlap(vs, a, b);
    if a * b <= Active(vs) - honest {
      SubsetSize(a * b, Active(vs) - honest);
    } else {
      var x :| x in a * b && x in honest;
      SignerOf(p, x);
      SignerOf(q, x);
    }
  }

  lemma {:induction false} SignerOf(qc: Certificate, a: Address)
    requires SignedByAll(qc) && a in Members(qc.validators)
    ensures HasSigned(qc, a)
  {
  }
}
