/** What the ceremony's verifier and its contributions amount to, for every transcript. */
module CeremonyLaws {
  import opened Outcomes
  import opened PrimeField
  import opened Kzg
  import opened Ceremony
  import Text

  // ----- what is accepted -----------------------------------------------------------------

  /** Record `i` names its participant, follows the state before it, changes it, carries a challenge
      and the attestation of its own contents, and publishes the product of all scalars so far. */
  ghost predicate RecordSound(p: int, t: Transcript, i: nat)
    requires p > 0 && i < |t.contributions|
  {
    var c := t.contributions[i];
    && !Text.Blank(c.participant) && c.challenge != ZeroDigest
    && c.prevHash == StateHash(t, i) && c.newHash != c.prevHash
    && c.attestation == OfAttestation(c.challenge, c.newHash, c.tauCommitment, c.cumulativeP1)
    && c.tauCommitment.Encoded? && c.cumulativeP1.Encoded?
    && Eq(p, c.cumulativeP1.log, CommittedProduct(t.contributions, i + 1))
  }

  /** The file holds the powers of `s`, other than the trapdoor, on the canonical generators. */
  ghost predicate HoldsScalar(p: int, file: File, s: int)
    requires p > 0
  {
    && file.SrsFile? && |file.g1| == BRANCHING_FACTOR
    && Eq(p, file.g2, 1) && Eq(p, file.g2Tau, s) && Progression(p, file.g1, s)
    && !Eq(p, s, DEV_TRAPDOOR_TAU)
  }

  ghost predicate SoundCeremony(p: int, file: File, t: Transcript, minimum: nat)
    requires p > 0
  {
    && t.version == 1 && t.branchingFactor == 256
    && |t.contributions| >= minimum && DistinctParticipants(t.contributions, |t.contributions|)
    && HeadHash(t) == OfFile(file)
    && (forall i :: 0 <= i < |t.contributions| ==> RecordSound(p, t, i))
    && HoldsScalar(p, file, CommittedProduct(t.contributions, |t.contributions|))
  }

  lemma {:induction false} RoundGivesRecord(p: int, g2: int, t: Transcript, i: nat)
    requires p > 0 && Eq(p, g2, 1) && i < |t.contributions| && RoundsOk(p, g2, t.contributions) && LinksAt(t, i)
    ensures RecordSound(p, t, i)
  {
    assert RoundAt(p, g2, t.contributions, i);
    CumulativeIsProduct(p, g2, t.contributions, i + 1);
  }

  /** The cumulative points are products exactly when each pairing equation of the chain holds. */
  lemma {:induction false} RecordGivesRound(p: int, g2: int, t: Transcript, i: nat)
    requires p > 0 && Eq(p, g2, 1) && i < |t.contributions| && RecordSound(p, t, i)
    requires i > 0 ==> RecordSound(p, t, i - 1)
    ensures RoundAt(p, g2, t.contributions, i)
  {
    var cs := t.contributions;
    var c, w, before := cs[i].cumulativeP1.log, cs[i].tauCommitment.log, CumulativeBefore(cs, i);
    Refl(p, 1);
    assert Eq(p, before, CommittedProduct(cs, i));
    Refl(p, w);
    MulEq(p, before, CommittedProduct(cs, i), w, w);
    Sym(p, before * w, CommittedProduct(cs, i) * w);
    TimesGenerator(p, c, g2);
    Trans(p, c * g2, c, CommittedProduct(cs, i) * w);
    Trans(p, c * g2, CommittedProduct(cs, i) * w, before * w);
  }

  lemma {:induction false} ScalarLoads(p: int, file: File, s: int)
    requires p >= BRANCHING_FACTOR && HoldsScalar(p, file, s)
    ensures LoadSrs(p, file) == Ok(Srs(file.g1, file.g2, file.g2Tau, None))
    ensures StructureOk(p, LoadSrs(p, file).value)
  {
    var srs := Srs(file.g1, file.g2, file.g2Tau, None);
    PowersProgress(p, file.g1, file.g2Tau, s);
    DevIffTrapdoor(p, srs);
    Refl(p, DEV_TRAPDOOR_TAU);
    EqIff(p, srs.g2Tau, DEV_TRAPDOOR_TAU, s, DEV_TRAPDOOR_TAU);
  }

  lemma {:induction false} FinalPower(p: int, file: File, cumulative: int, s: int)
    requires p > 0 && HoldsScalar(p, file, s) && Eq(p, cumulative, s)
    ensures Eq(p, cumulative, file.g1[1])
  {
    assert Pow(s, 1) == s * Pow(s, 0);
    assert Eq(p, file.g1[1], Pow(s, 1));
    Sym(p, file.g1[1], s);
    Trans(p, cumulative, s, file.g1[1]);
  }

  lemma {:induction false} ScalarFromFinal(p: int, file: File, cumulative: int, product: int)
    requires p > 0 && LoadSrs(p, file).Ok? && StructureOk(p, LoadSrs(p, file).value)
    requires Eq(p, cumulative, file.g1[1]) && Eq(p, cumulative, product)
    ensures HoldsScalar(p, file, product)
  {
    var srs := LoadSrs(p, file).value;
    FinalScalar(p, srs, cumulative, product);
    TimesGenerator(p, product, srs.g2);
    Refl(p, srs.g2Tau);
    assert srs.g2 * product == product * srs.g2;
    Trans(p, srs.g2Tau, srs.g2 * product, product);
  }

  lemma {:induction false} AcceptedIsSound(p: int, file: File, t: Transcript, minimum: nat)
    requires p >= BRANCHING_FACTOR && Accepts(p, file, t, minimum)
    ensures SoundCeremony(p, file, t, minimum)
  {
    var cs, srs := t.contributions, LoadSrs(p, file).value;
    forall i | 0 <= i < |cs|
      ensures RecordSound(p, t, i)
    {
      assert LinksAt(t, i);
      RoundGivesRecord(p, srs.g2, t, i);
    }
    CumulativeIsProduct(p, srs.g2, cs, |cs|);
    ScalarFromFinal(p, file, CumulativeBefore(cs, |cs|), CommittedProduct(cs, |cs|));
  }

  lemma {:induction false} SoundIsAccepted(p: int, file: File, t: Transcript, minimum: nat)
    requires p >= BRANCHING_FACTOR && SoundCeremony(p, file, t, minimum)
    ensures Accepts(p, file, t, minimum)
  {
    var cs := t.contributions;
    var product := CommittedProduct(cs, |cs|);
    ScalarLoads(p, file, product);
    forall i | 0 <= i < |cs|
      ensures RoundAt(p, file.g2, cs, i) && LinksAt(t, i)
    {
      assert RecordSound(p, t, i) && (i > 0 ==> RecordSound(p, t, i - 1));
      RecordGivesRound(p, file.g2, t, i);
    }
    Refl(p, 1);
    assert cs != [] ==> RecordSound(p, t, |cs| - 1);
    FinalPower(p, file, CumulativeBefore(cs, |cs|), product);
  }

  /** The verifier accepts exactly the ceremonies of the current version with enough distinct, named
      participants, whose states chain from the initial one to the file without repetition, whose
      records attest their contents and publish the running products of the committed scalars, and
      whose file holds the powers of the whole product, other than the trapdoor. */
  lemma {:induction false} AcceptedExactly(p: int, file: File, t: Transcript, minimum: nat)
    requires p >= BRANCHING_FACTOR
    ensures Accepts(p, file, t, minimum) <==> SoundCeremony(p, file, t, minimum)
  {
    if Accepts(p, file, t, minimum) { AcceptedIsSound(p, file, t, minimum); }
    if SoundCeremony(p, file, t, minimum) { SoundIsAccepted(p, file, t, minimum); }
  }

  // ----- tampering ------------------------------------------------------------------------

  /** The fields that the attestation of a record covers. */
  predicate SameCovered(c: Contribution, d: Contribution) {
    c.challenge == d.challenge && c.newHash == d.newHash
    && c.tauCommitment == d.tauCommitment && c.cumulativeP1 == d.cumulativeP1
  }

  /** A record of an accepted transcript whose attestation is replaced without the fields it covers, or
      one of those fields without the attestation, is refused. */
  lemma {:induction false} TamperedRefused(p: int, file: File, t: Transcript, minimum: nat, i: nat, d: Contribution)
    requires p >= BRANCHING_FACTOR && i < |t.contributions| && Accepts(p, file, t, minimum)
    requires SameCovered(t.contributions[i], d) != (t.contributions[i].attestation == d.attestation)
    ensures !Accepts(p, file, t.(contributions := t.contributions[i := d]), minimum)
  {
    var t' := t.(contributions := t.contributions[i := d]);
    AcceptedExactly(p, file, t, minimum);
    AcceptedExactly(p, file, t', minimum);
    assert RecordSound(p, t, i);
    assert SoundCeremony(p, file, t', minimum) ==> RecordSound(p, t', i);
  }

  /** A record that names its contributor and carries every field. */
  ghost predicate Complete(c: Contribution) {
    && !Text.Blank(c.participant) && c.newHash != c.prevHash
    && c.tauCommitment != Missing && c.cumulativeP1 != Missing
    && c.challenge != ZeroDigest && c.attestation != ZeroDigest
  }

  /** In a valid chain the only record that can stand at a place is a complete one, by somebody new, that
      leads from the state before it to the state after it. */
  lemma {:induction false} ChainReplaced(t: Transcript, i: nat, d: Contribution)
    requires ChainValid(t) && i < |t.contributions|
    ensures var cs := t.contributions;
      ChainValid(t.(contributions := cs[i := d])) <==>
        && Complete(d) && d.prevHash == cs[i].prevHash
        && (i + 1 < |cs| ==> d.newHash == cs[i].newHash)
        && forall j :: 0 <= j < |cs| && j != i ==> cs[j].participant != d.participant
  {
    var cs := t.contributions;
    var t' := t.(contributions := cs[i := d]);
    assert LinksAt(t, i);
    forall j | 0 <= j < |cs| && j != i && (j == i + 1 ==> d.newHash == cs[i].newHash)
      ensures LinksAt(t', j)
    {
      assert LinksAt(t, j);
    }
    if ChainValid(t') {
      assert LinksAt(t', i);
      if i + 1 < |cs| {
        assert LinksAt(t, i + 1) && LinksAt(t', i + 1);
      }
      forall j | 0 <= j < |cs| && j != i
        ensures cs[j].participant != d.participant
      {
        assert t'.contributions[j] == cs[j] && t'.contributions[i] == d;
      }
    }
  }

  /** A file loads exactly when it parses, has 256 points and does not carry the marks of the scalar 42;
      what is loaded is what the file says. */
  lemma {:induction false} LoadedExactly(p: int, file: File)
    requires p > 0
    ensures var r := LoadSrs(p, file);
      && (r.Ok? <==> file.SrsFile? && |file.g1| == 256 && !Marked(p, file))
      && (r.Ok? ==> r.value == Srs(file.g1, file.g2, file.g2Tau, None))
      && (r == Err(DevelopmentSrs) <==> file.SrsFile? && |file.g1| == 256 && Marked(p, file))
  {
  }

  /** The first three powers and the second-group point of the scalar 42. */
  ghost predicate Marked(p: int, file: File)
    requires p > 0 && file.SrsFile? && |file.g1| == 256
  {
    Eq(p, file.g1[0], 1) && Eq(p, file.g1[1], 42) && Eq(p, file.g1[2], 1764) && Eq(p, file.g2Tau, file.g2 * 42)
  }

  // ----- contributions --------------------------------------------------------------------

  lemma {:induction false} ScaledProgress(p: int, file: File, s: int, tau: int)
    requires p >= BRANCHING_FACTOR && HoldsScalar(p, file, s)
    ensures var out := Scaled(Srs(file.g1, file.g2, file.g2Tau, None), tau);
      Eq(p, out.g2, 1) && Eq(p, out.g2Tau, s * tau) && Progression(p, out.g1Powers, s * tau)
  {
    var out := Scaled(Srs(file.g1, file.g2, file.g2Tau, None), tau);
    forall j | 0 <= j < |out.g1Powers|
      ensures Eq(p, out.g1Powers[j], Pow(s * tau, j))
    {
      Refl(p, Pow(tau, j));
      MulEq(p, file.g1[j], Pow(s, j), Pow(tau, j), Pow(tau, j));
      PowMul(s, tau, j);
    }
    Refl(p, tau);
    MulEq(p, file.g2Tau, s, tau, tau);
  }

  lemma {:induction false} ScaledScalar(p: int, file: File, s: int, tau: int)
    requires p >= BRANCHING_FACTOR && HoldsScalar(p, file, s)
    ensures var after := Canonical(p, Scaled(Srs(file.g1, file.g2, file.g2Tau, None), tau));
      && |after.g1| == BRANCHING_FACTOR && Eq(p, after.g2, 1)
      && Eq(p, after.g2Tau, s * tau) && Progression(p, after.g1, s * tau)
  {
    var out := Scaled(Srs(file.g1, file.g2, file.g2Tau, None), tau);
    var after := Canonical(p, out);
    ScaledProgress(p, file, s, tau);
    forall j | 0 <= j < |after.g1|
      ensures Eq(p, after.g1[j], Pow(s * tau, j))
    {
      Residue(p, out.g1Powers[j]);
      Trans(p, after.g1[j], out.g1Powers[j], Pow(s * tau, j));
    }
    Residue(p, out.g2);
    Trans(p, after.g2, out.g2, 1);
    Residue(p, out.g2Tau);
    Trans(p, after.g2Tau, out.g2Tau, s * tau);
  }

  /** A written progression is not that of the trapdoor. */
  lemma {:induction false} WrittenIsNotTrapdoor(p: int, srs: Srs, s: int)
    requires p >= BRANCHING_FACTOR && WriteSrs(p, srs).Ok? && srs.tau.None?
    requires Eq(p, srs.g2, 1) && Eq(p, srs.g2Tau, s) && Progression(p, srs.g1Powers, s)
    ensures !Eq(p, s, DEV_TRAPDOOR_TAU)
  {
    PowersProgress(p, srs.g1Powers, srs.g2Tau, s);
    DevIffTrapdoor(p, srs);
    Refl(p, DEV_TRAPDOOR_TAU);
    EqIff(p, srs.g2Tau, DEV_TRAPDOOR_TAU, s, DEV_TRAPDOOR_TAU);
  }

  /** Whatever transcript a contribution is admitted to: it moves the file from the powers of a scalar
      to those of its product with the applied one, never to the trapdoor; it is appended by a new and
      named participant on the head state and becomes the head; and the chain stays valid exactly when
      the state changes. */
  lemma {:induction false} AdmittedContribution(p: int, file: File, t: Transcript, round: Round)
    requires p >= BRANCHING_FACTOR && Admitted(p, file, t, round.id, round.seed)
    ensures var next := Step(p, file, t, round);
      && file.SrsFile? && HoldsScalar(p, file, file.g2Tau) && HeadHash(t) == OfFile(file) && next.Some?
      && HoldsScalar(p, next.value.0, file.g2Tau * Applied(p, round.seed))
      && HeadHash(next.value.1) == OfFile(next.value.0)
      && next.value.1.contributions[..|t.contributions|] == t.contributions
      && (ChainValid(next.value.1) <==> next.value.0 != file)
  {
    var s, tau := file.g2Tau, Applied(p, round.seed);
    Refl(p, s);
    var out := Scaled(LoadSrs(p, file).value, tau);
    var after := Canonical(p, out);
    ScaledScalar(p, file, s, tau);
    ScaledProgress(p, file, s, tau);
    WrittenIsNotTrapdoor(p, out, s * tau);
    ChainExtends(t, Record(p, file, after, round.id, tau));
  }

  // ----- files ----------------------------------------------------------------------------

  lemma {:induction false} ResidueKeeps(p: int, a: int, b: int, c: int)
    requires p > 0
    ensures Eq(p, a % p, b) <==> Eq(p, a, b)
    ensures Eq(p, a % p, (c % p) * b) <==> Eq(p, a, c * b)
  {
    Residue(p, a);
    Residue(p, c);
    Refl(p, b);
    MulEq(p, c % p, c, b, b);
    EqIff(p, a % p, b, a, b);
    EqIff(p, a % p, (c % p) * b, a, c * b);
  }

  /** An SRS that can be written is read back with the same points. */
  lemma {:induction false} WriteLoadRoundTrip(p: int, srs: Srs)
    requires p > 0 && WriteSrs(p, srs).Ok?
    ensures var loaded := LoadSrs(p, WriteSrs(p, srs).value);
      && loaded.Ok? && |loaded.value.g1Powers| == |srs.g1Powers|
      && (forall i :: 0 <= i < |srs.g1Powers| ==> Eq(p, loaded.value.g1Powers[i], srs.g1Powers[i]))
      && Eq(p, loaded.value.g2, srs.g2) && Eq(p, loaded.value.g2Tau, srs.g2Tau)
  {
    var tau := DEV_TRAPDOOR_TAU;
    ResidueKeeps(p, srs.g1Powers[0], 1, srs.g2);
    ResidueKeeps(p, srs.g1Powers[1], tau, srs.g2);
    ResidueKeeps(p, srs.g1Powers[2], tau * tau, srs.g2);
    ResidueKeeps(p, srs.g2Tau, tau, srs.g2);
    forall i | 0 <= i < |srs.g1Powers|
      ensures Eq(p, srs.g1Powers[i] % p, srs.g1Powers[i])
    {
      Residue(p, srs.g1Powers[i]);
    }
    Residue(p, srs.g2);
    Residue(p, srs.g2Tau);
  }
}
