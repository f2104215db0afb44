/** The sequential powers-of-tau ceremony: initial state, contributions, and the final offline
    verification of the public transcript.  Hashes are symbolic: a digest records what was hashed,
    so equal digests have equal pre-images. */
module Ceremony {
  import opened Outcomes
  import opened PrimeField
  import opened Kzg
  import Polynomial
  import Text

  const CEREMONY_TRANSCRIPT_VERSION: nat := 1

  /** An SRS file: the canonical residues of its points, or bytes that do not parse. */
  datatype File = SrsFile(g1: seq<int>, g2: int, g2Tau: int) | Unparsable

  datatype Digest =
    | ZeroDigest
    | OtherDigest(tag: nat)
    | OfFile(file: File)
    | OfChallenge(prev: Digest)
    | OfAttestation(challenge: Digest, state: Digest, w: PointField, c: PointField)

  /** A point field of the transcript: possibly empty, possibly not a point. */
  datatype PointField = Missing | Encoded(log: int) | Undecodable

  datatype Contribution = Contribution(
    participant: string, prevHash: Digest, newHash: Digest, tauCommitment: PointField,
    cumulativeP1: PointField, challenge: Digest, attestation: Digest)

  datatype Transcript = Transcript(
    version: nat, branchingFactor: nat, initHash: Digest, contributions: seq<Contribution>)

  datatype Report = Report(finalHash: Digest, participants: seq<string>, version: nat)

  datatype CeremonyError =
    | BlankParticipant | InvalidChain | DuplicateParticipant | TooFewParticipants
    | UnreadableFile | DevelopmentSrs | BadStructure | WrongState
    | AttestationMismatch | BadPoint | BrokenProduct | WrongFinalPower

  // ----- SRS files ------------------------------------------------------------------------

  predicate IsDevTrapdoor(p: int, srs: Srs)
    requires p > 0
  {
    || (srs.tau.Some? && Eq(p, srs.tau.value, DEV_TRAPDOOR_TAU))
    || (&& |srs.g1Powers| >= 3
        && Eq(p, srs.g1Powers[0], 1)
        && Eq(p, srs.g1Powers[1], DEV_TRAPDOOR_TAU)
        && Eq(p, srs.g1Powers[2], DEV_TRAPDOOR_TAU * DEV_TRAPDOOR_TAU)
        && Eq(p, srs.g2Tau, srs.g2 * DEV_TRAPDOOR_TAU))
  }

  function Canonical(p: int, srs: Srs): File
    requires p > 0
  {
    SrsFile(seq(|srs.g1Powers|, i requires 0 <= i < |srs.g1Powers| => srs.g1Powers[i] % p), srs.g2 % p, srs.g2Tau % p)
  }

  function WriteSrs(p: int, srs: Srs): Result<File, CeremonyError>
    requires p > 0
  {
    if IsDevTrapdoor(p, srs) then Err(DevelopmentSrs)
    else if |srs.g1Powers| != BRANCHING_FACTOR then Err(BadStructure)
    else Ok(Canonical(p, srs))
  }

  function LoadSrs(p: int, file: File): Result<Srs, CeremonyError>
    requires p > 0
  {
    if file.Unparsable? || |file.g1| != BRANCHING_FACTOR then Err(UnreadableFile)
    else
      var srs := Srs(file.g1, file.g2, file.g2Tau, None);
      if IsDevTrapdoor(p, srs) then Err(DevelopmentSrs) else Ok(srs)
  }

  // ----- structural verification ----------------------------------------------------------

  /** What an accepted SRS is: the powers of the scalar committed in `g2Tau`, on the canonical
      generators, and that scalar is not the development trapdoor. */
  ghost predicate StructureOk(p: int, srs: Srs)
    requires p > 0
  {
    && |srs.g1Powers| == BRANCHING_FACTOR
    && Eq(p, srs.g2, 1)
    && Progression(p, srs.g1Powers, srs.g2Tau)
    && !Eq(p, srs.g2Tau, DEV_TRAPDOOR_TAU)
    && (srs.tau.Some? ==> !Eq(p, srs.tau.value, DEV_TRAPDOOR_TAU))
  }

  ghost predicate Progression(p: int, powers: seq<int>, t: int)
    requires p > 0
  {
    forall i :: 0 <= i < |powers| ==> Eq(p, powers[i], Pow(t, i))
  }

  lemma {:induction false} PowEq(p: int, a: int, b: int, n: nat)
    requires p > 0 && Eq(p, a, b)
    ensures Eq(p, Pow(a, n), Pow(b, n))
  {
    if n > 0 {
      PowEq(p, a, b, n - 1);
      MulEq(p, a, b, Pow(a, n - 1), Pow(b, n - 1));
    }
  }

  lemma {:induction false} PowOne(n: nat)
    ensures Pow(1, n) == 1
  {
    if n > 0 { PowOne(n - 1); }
  }

  /** Multiplying by the generator changes nothing. */
  lemma {:induction false} TimesGenerator(p: int, a: int, g: int)
    requires p > 0 && Eq(p, g, 1)
    ensures Eq(p, a * g, a)
  {
    Refl(p, a);
    MulEq(p, a, a, g, 1);
  }

  lemma {:induction false} EqIff(p: int, a: int, b: int, a': int, b': int)
    requires p > 0 && Eq(p, a, a') && Eq(p, b, b')
    ensures Eq(p, a, b) <==> Eq(p, a', b')
  {
    Sym(p, a, a');
    Sym(p, b, b');
    if Eq(p, a, b) {
      Trans(p, a', a, b);
      Trans(p, a', b, b');
    }
    if Eq(p, a', b') {
      Trans(p, a, a', b');
      Trans(p, a, b', b);
    }
  }

  lemma {:induction false} UnitProgression(p: int, powers: seq<int>, t: int)
    requires p > 0 && Eq(p, t, 1)
    ensures Progression(p, powers, t) <==> forall i :: 0 <= i < |powers| ==> Eq(p, powers[i], 1)
  {
    forall i | 0 <= i < |powers|
      ensures Eq(p, powers[i], Pow(t, i)) <==> Eq(p, powers[i], 1)
    {
      PowEq(p, t, 1, i);
      PowOne(i);
      Refl(p, powers[i]);
      EqIff(p, powers[i], Pow(t, i), powers[i], 1);
    }
  }

  /** The pairing check between consecutive powers, given the earlier one. */
  lemma {:induction false} NextPower(p: int, previous: int, current: int, g2: int, g2Tau: int, i: nat)
    requires p > 0 && Eq(p, g2, 1) && Eq(p, previous, Pow(g2Tau, i))
    ensures Eq(p, current * g2, previous * g2Tau) <==> Eq(p, current, Pow(g2Tau, i + 1))
  {
    TimesGenerator(p, current, g2);
    Refl(p, g2Tau);
    MulEq(p, previous, Pow(g2Tau, i), g2Tau, g2Tau);
    assert Pow(g2Tau, i) * g2Tau == Pow(g2Tau, i + 1);
    EqIff(p, current * g2, previous * g2Tau, current, Pow(g2Tau, i + 1));
  }

  lemma {:induction false} FirstPower(p: int, power: int, g2: int, g2Tau: int)
    requires p > 0 && Eq(p, g2, 1)
    ensures Eq(p, g2Tau, power * g2) <==> Eq(p, power, Pow(g2Tau, 1))
  {
    TimesGenerator(p, power, g2);
    Refl(p, g2Tau);
    EqIff(p, g2Tau, power * g2, g2Tau, power);
    assert Pow(g2Tau, 1) == g2Tau * Pow(g2Tau, 0);
    if Eq(p, g2Tau, power) { Sym(p, g2Tau, power); }
    if Eq(p, power, g2Tau) { Sym(p, power, g2Tau); }
  }

  /** A progression is the development SRS exactly when its scalar is the development trapdoor. */
  lemma {:induction false} DevIffTrapdoor(p: int, srs: Srs)
    requires p > 0 && |srs.g1Powers| >= 3
    requires Eq(p, srs.g2, 1) && Progression(p, srs.g1Powers, srs.g2Tau)
    ensures IsDevTrapdoor(p, srs) <==>
              Eq(p, srs.g2Tau, DEV_TRAPDOOR_TAU) || (srs.tau.Some? && Eq(p, srs.tau.value, DEV_TRAPDOOR_TAU))
  {
    DevTail(p, srs);
    if Eq(p, srs.g2Tau, DEV_TRAPDOOR_TAU) {
      assert Pow(srs.g2Tau, 0) == 1 && Pow(DEV_TRAPDOOR_TAU, 0) == 1;
      assert Pow(DEV_TRAPDOOR_TAU, 1) == DEV_TRAPDOOR_TAU;
      assert Pow(DEV_TRAPDOOR_TAU, 2) == DEV_TRAPDOOR_TAU * DEV_TRAPDOOR_TAU;
      PowEq(p, srs.g2Tau, DEV_TRAPDOOR_TAU, 1);
      PowEq(p, srs.g2Tau, DEV_TRAPDOOR_TAU, 2);
      Trans(p, srs.g1Powers[1], Pow(srs.g2Tau, 1), DEV_TRAPDOOR_TAU);
      Trans(p, srs.g1Powers[2], Pow(srs.g2Tau, 2), DEV_TRAPDOOR_TAU * DEV_TRAPDOOR_TAU);
    }
  }

  lemma {:induction false} DevTail(p: int, srs: Srs)
    requires p > 0 && Eq(p, srs.g2, 1)
    ensures Eq(p, srs.g2Tau, srs.g2 * DEV_TRAPDOOR_TAU) <==> Eq(p, srs.g2Tau, DEV_TRAPDOOR_TAU)
  {
    TimesGenerator(p, DEV_TRAPDOOR_TAU, srs.g2);
    Refl(p, srs.g2Tau);
    EqIff(p, srs.g2Tau, srs.g2 * DEV_TRAPDOOR_TAU, srs.g2Tau, DEV_TRAPDOOR_TAU);
  }

  /** The structural checks accept exactly the SRS described by `StructureOk`. */
  method VerifySrsStructure(p: int, srs: Srs) returns (r: Result<(), CeremonyError>)
    requires p >= BRANCHING_FACTOR
    ensures r.Ok? <==> StructureOk(p, srs)
  {
    var powers, g2, g2Tau := srs.g1Powers, srs.g2, srs.g2Tau;
    if |powers| != BRANCHING_FACTOR {
      return Err(BadStructure);
    }
    assert Pow(g2Tau, 0) == 1;
    if !Eq(p, powers[0], 1) || !Eq(p, g2, 1) {
      return Err(BadStructure);
    }
    DevTail(p, srs);
    if Eq(p, g2Tau, g2) {
      if IsDevTrapdoor(p, srs) {
        return Err(DevelopmentSrs);
      }
      var all := true;
      for i := 0 to |powers|
        invariant all <==> forall j :: 0 <= j < i ==> Eq(p, powers[j], 1)
      {
        if !Eq(p, powers[i], 1) {
          all := false;
        }
      }
      Trans(p, g2Tau, g2, 1);
      UnitProgression(p, powers, g2Tau);
      UnitIsNotDev(p, g2Tau);
      return if all then Ok(()) else Err(BadStructure);
    }
    FirstPower(p, powers[1], g2, g2Tau);
    if !Eq(p, g2Tau, powers[1] * g2) {
      return Err(BadStructure);
    }
    for i := 2 to |powers|
      invariant forall j :: 0 <= j < i ==> Eq(p, powers[j], Pow(g2Tau, j))
    {
      NextPower(p, powers[i - 1], powers[i], g2, g2Tau, i - 1);
      if !Eq(p, powers[i] * g2, powers[i - 1] * g2Tau) {
        return Err(BadStructure);
      }
    }
    DevIffTrapdoor(p, srs);
    return if IsDevTrapdoor(p, srs) then Err(DevelopmentSrs) else Ok(());
  }

  lemma {:induction false} UnitIsNotDev(p: int, t: int)
    requires p >= BRANCHING_FACTOR && Eq(p, t, 1)
    ensures !Eq(p, t, DEV_TRAPDOOR_TAU)
  {
    if Eq(p, t, DEV_TRAPDOOR_TAU) {
      Sym(p, t, 1);
      Trans(p, 1, t, DEV_TRAPDOOR_TAU);
      Polynomial.DistinctScalars(p, 1, DEV_TRAPDOOR_TAU);
    }
  }

  // ----- the transcript -------------------------------------------------------------------

  function Genesis(initHash: Digest): Transcript {
    Transcript(CEREMONY_TRANSCRIPT_VERSION, BRANCHING_FACTOR, initHash, [])
  }

  /** The hash of the state after the first `k` contributions. */
  function StateHash(t: Transcript, k: nat): Digest
    requires k <= |t.contributions|
  {
    if k == 0 then t.initHash else t.contributions[k - 1].newHash
  }

  function HeadHash(t: Transcript): Digest {
    StateHash(t, |t.contributions|)
  }

  /** A single record is well formed and follows the state `prev`. */
  predicate Links(c: Contribution, prev: Digest) {
    && !Text.Blank(c.participant)
    && c.prevHash == prev
    && c.newHash != c.prevHash
    && c.tauCommitment != Missing && c.cumulativeP1 != Missing
    && c.challenge != ZeroDigest && c.attestation != ZeroDigest
  }

  ghost predicate DistinctParticipants(cs: seq<Contribution>, k: nat)
    requires k <= |cs|
  {
    forall i, j :: 0 <= i < j < k ==> cs[i].participant != cs[j].participant
  }

  ghost predicate ChainValid(t: Transcript) {
    && t.version == CEREMONY_TRANSCRIPT_VERSION
    && t.branchingFactor == BRANCHING_FACTOR
    && DistinctParticipants(t.contributions, |t.contributions|)
    && forall i :: 0 <= i < |t.contributions| ==> LinksAt(t, i)
  }

  ghost predicate LinksAt(t: Transcript, i: nat)
    requires i < |t.contributions|
  {
    Links(t.contributions[i], StateHash(t, i))
  }

  ghost function Names(cs: seq<Contribution>, k: nat): set<string>
    requires k <= |cs|
  {
    if k == 0 then {} else Names(cs, k - 1) + {cs[k - 1].participant}
  }

  lemma {:induction false} NamesMembers(cs: seq<Contribution>, k: nat, id: string)
    requires k <= |cs|
    ensures id in Names(cs, k) <==> exists j :: 0 <= j < k && cs[j].participant == id
  {
    if k > 0 { NamesMembers(cs, k - 1, id); }
  }

  method ValidateChain(t: Transcript) returns (r: Result<(), CeremonyError>)
    ensures r.Ok? <==> ChainValid(t)
  {
    if t.version != CEREMONY_TRANSCRIPT_VERSION || t.branchingFactor != BRANCHING_FACTOR {
      return Err(InvalidChain);
    }
    var cs := t.contributions;
    var seen: set<string> := {};
    var expected := t.initHash;
    for i := 0 to |cs|
      invariant expected == StateHash(t, i)
      invariant seen == Names(cs, i)
      invariant DistinctParticipants(cs, i)
      invariant forall j :: 0 <= j < i ==> LinksAt(t, j)
    {
      var c := cs[i];
      NamesMembers(cs, i, c.participant);
      assert LinksAt(t, i) <==> Links(c, expected);
      if Text.Blank(c.participant) {
        return Err(BlankParticipant);
      }
      if c.participant in seen {
        return Err(DuplicateParticipant);
      }
      if !Links(c, expected) {
        return Err(InvalidChain);
      }
      seen := seen + {c.participant};
      expected := c.newHash;
    }
    r := Ok(());
  }

  // ----- verification ---------------------------------------------------------------------

  function LogOf(field: PointField): int {
    if field.Encoded? then field.log else 0
  }

  /** The product of the scalars committed by the first `k` contributions. */
  function CommittedProduct(cs: seq<Contribution>, k: nat): int
    requires k <= |cs|
  {
    if k == 0 then 1 else CommittedProduct(cs, k - 1) * LogOf(cs[k - 1].tauCommitment)
  }

  function CumulativeBefore(cs: seq<Contribution>, i: nat): int
    requires i <= |cs|
  {
    if i == 0 then 1 else LogOf(cs[i - 1].cumulativeP1)
  }

  /** A record carries decodable points, the right attestation, and a cumulative point that extends
      the previous one by the committed scalar. */
  ghost predicate RoundOk(p: int, g2: int, previous: int, c: Contribution)
    requires p > 0
  {
    && c.attestation == OfAttestation(c.challenge, c.newHash, c.tauCommitment, c.cumulativeP1)
    && c.tauCommitment.Encoded? && c.cumulativeP1.Encoded?
    && Eq(p, c.cumulativeP1.log * g2, previous * c.tauCommitment.log)
  }

  ghost predicate RoundsOk(p: int, g2: int, cs: seq<Contribution>)
    requires p > 0
  {
    forall i :: 0 <= i < |cs| ==> RoundAt(p, g2, cs, i)
  }

  ghost predicate RoundAt(p: int, g2: int, cs: seq<Contribution>, i: nat)
    requires p > 0 && i < |cs|
  {
    RoundOk(p, g2, CumulativeBefore(cs, i), cs[i])
  }

  ghost predicate FinalOk(p: int, srs: Srs, cs: seq<Contribution>)
    requires p > 0
  {
    && StructureOk(p, srs)
    && RoundsOk(p, srs.g2, cs)
    && Eq(p, CumulativeBefore(cs, |cs|), srs.g1Powers[1])
  }

  ghost predicate Accepts(p: int, file: File, t: Transcript, minimum: nat)
    requires p > 0
  {
    && ChainValid(t)
    && |t.contributions| >= minimum
    && HeadHash(t) == OfFile(file)
    && var loaded := LoadSrs(p, file);
    loaded.Ok? && FinalOk(p, loaded.value, t.contributions)
  }

  function Participants(cs: seq<Contribution>): seq<string> {
    seq(|cs|, i requires 0 <= i < |cs| => cs[i].participant)
  }

  method CeremonyVerify(p: int, file: File, t: Transcript, minimum: nat) returns (r: Result<Report, CeremonyError>)
    requires p >= BRANCHING_FACTOR
    ensures r.Ok? <==> Accepts(p, file, t, minimum)
    ensures r.Ok? ==> r.value.finalHash == OfFile(file) && r.value.version == CEREMONY_TRANSCRIPT_VERSION
                      && r.value.participants == Participants(t.contributions)
  {
    var cs := t.contributions;
    var chain := ValidateChain(t);
    if chain.Err? {
      return Err(chain.error);
    }
    if |cs| < minimum {
      return Err(TooFewParticipants);
    }
    var loaded := LoadSrs(p, file);
    if loaded.Err? {
      return Err(loaded.error);
    }
    var srs := loaded.value;
    var structure := VerifySrsStructure(p, srs);
    if structure.Err? {
      return Err(structure.error);
    }
    if OfFile(file) != HeadHash(t) {
      return Err(WrongState);
    }
    var previous := 1;
    for i := 0 to |cs|
      invariant previous == CumulativeBefore(cs, i)
      invariant forall j :: 0 <= j < i ==> RoundAt(p, srs.g2, cs, j)
    {
      var c := cs[i];
      assert RoundAt(p, srs.g2, cs, i) <==> RoundOk(p, srs.g2, previous, c);
      if c.attestation != OfAttestation(c.challenge, c.newHash, c.tauCommitment, c.cumulativeP1) {
        return Err(AttestationMismatch);
      }
      if !c.tauCommitment.Encoded? || !c.cumulativeP1.Encoded? {
        return Err(BadPoint);
      }
      if !Eq(p, c.cumulativeP1.log * srs.g2, previous * c.tauCommitment.log) {
        return Err(BrokenProduct);
      }
      previous := c.cumulativeP1.log;
    }
    if !Eq(p, previous, srs.g1Powers[1]) {
      return Err(WrongFinalPower);
    }
    r := Ok(Report(OfFile(file), Participants(cs), t.version));
  }

  lemma {:induction false} CumulativeIsProduct(p: int, g2: int, cs: seq<Contribution>, k: nat)
    requires p > 0 && Eq(p, g2, 1) && k <= |cs| && RoundsOk(p, g2, cs)
    ensures Eq(p, CumulativeBefore(cs, k), CommittedProduct(cs, k))
  {
    if k > 0 {
      CumulativeIsProduct(p, g2, cs, k - 1);
      assert RoundAt(p, g2, cs, k - 1);
      var c, w := cs[k - 1].cumulativeP1.log, cs[k - 1].tauCommitment.log;
      var before, product := CumulativeBefore(cs, k - 1), CommittedProduct(cs, k - 1);
      TimesGenerator(p, c, g2);
      Sym(p, c * g2, c);
      Trans(p, c, c * g2, before * w);
      Refl(p, w);
      MulEq(p, before, product, w, w);
      Trans(p, c, before * w, product * w);
    }
  }

  /** Soundness: an accepted ceremony ends in the powers of the product of all committed scalars,
      which is not the development trapdoor; participants are distinct and numerous enough; and the
      state hashes run from the initial state to the final file without a break or a repetition. */
  lemma {:induction false} CeremonySound(p: int, file: File, t: Transcript, minimum: nat)
    requires p >= BRANCHING_FACTOR && Accepts(p, file, t, minimum)
    ensures forall i :: 0 <= i < |t.contributions| ==> t.contributions[i].tauCommitment.Encoded?
    ensures PowersOf(p, LoadSrs(p, file).value, CommittedProduct(t.contributions, |t.contributions|))
    ensures !Eq(p, CommittedProduct(t.contributions, |t.contributions|), DEV_TRAPDOOR_TAU)
    ensures |t.contributions| >= minimum && DistinctParticipants(t.contributions, |t.contributions|)
    ensures StateHash(t, |t.contributions|) == OfFile(file)
    ensures forall i :: 0 <= i < |t.contributions| ==>
              && t.contributions[i].prevHash == StateHash(t, i)
              && t.contributions[i].newHash == StateHash(t, i + 1) != StateHash(t, i)
  {
    var cs, srs := t.contributions, LoadSrs(p, file).value;
    forall i | 0 <= i < |cs|
      ensures cs[i].tauCommitment.Encoded?
      ensures cs[i].prevHash == StateHash(t, i) && StateHash(t, i + 1) != StateHash(t, i)
    {
      assert RoundAt(p, srs.g2, cs, i);
      assert LinksAt(t, i);
    }
    var product := CommittedProduct(cs, |cs|);
    CumulativeIsProduct(p, srs.g2, cs, |cs|);
    FinalScalar(p, srs, CumulativeBefore(cs, |cs|), product);
  }

  lemma {:induction false} FinalScalar(p: int, srs: Srs, cumulative: int, product: int)
    requires p > 0 && StructureOk(p, srs) && srs.tau.None?
    requires Eq(p, cumulative, srs.g1Powers[1]) && Eq(p, cumulative, product)
    ensures PowersOf(p, srs, product) && !Eq(p, product, DEV_TRAPDOOR_TAU)
  {
    var tau := srs.g2Tau;
    assert Pow(tau, 1) == tau * Pow(tau, 0);
    Trans(p, cumulative, srs.g1Powers[1], tau);
    Sym(p, cumulative, tau);
    Trans(p, tau, cumulative, product);
    forall i | 0 <= i < |srs.g1Powers|
      ensures Eq(p, srs.g1Powers[i], Pow(product, i))
    {
      PowEq(p, tau, product, i);
      Trans(p, srs.g1Powers[i], Pow(tau, i), Pow(product, i));
    }
    TimesGenerator(p, product, srs.g2);
    Sym(p, product * srs.g2, product);
    Trans(p, tau, product, srs.g2 * product);
    if Eq(p, product, DEV_TRAPDOOR_TAU) { Trans(p, tau, product, DEV_TRAPDOOR_TAU); }
  }

  // ----- initialisation and contribution --------------------------------------------------

  function InitialSrs(): Srs {
    Srs(seq(BRANCHING_FACTOR, _ => 1), 1, 1, None)
  }

  /** Every power is scaled by the matching power of the fresh secret. */
  function Scaled(srs: Srs, tau: int): Srs {
    Srs(seq(|srs.g1Powers|, j requires 0 <= j < |srs.g1Powers| => srs.g1Powers[j] * Pow(tau, j)),
        srs.g2, srs.g2Tau * tau, None)
  }

  /** The sampled secret; zero is replaced by one. */
  function Applied(p: int, seed: int): int
    requires p > 0
  {
    if seed % p == 0 then 1 else seed
  }

  function Record(p: int, before: File, after: File, id: string, tau: int): Contribution
    requires p > 0 && after.SrsFile? && |after.g1| == BRANCHING_FACTOR
  {
    var w, c := Encoded(tau % p), Encoded(after.g1[1]);
    var challenge := OfChallenge(OfFile(before));
    Contribution(id, OfFile(before), OfFile(after), w, c, challenge, OfAttestation(challenge, OfFile(after), w, c))
  }

  /** A contribution is admitted when the transcript and the incoming state are in order, the
      participant is new, and the outcome is not the development SRS. */
  ghost predicate Admitted(p: int, file: File, t: Transcript, id: string, seed: int)
    requires p > 0
  {
    && !Text.Blank(id)
    && ChainValid(t)
    && id !in Names(t.contributions, |t.contributions|)
    && OfFile(file) == HeadHash(t)
    && var loaded := LoadSrs(p, file);
    && loaded.Ok? && StructureOk(p, loaded.value)
    && WriteSrs(p, Scaled(loaded.value, Applied(p, seed))).Ok?
  }

  method CeremonyInit(p: int) returns (r: Result<(File, Transcript), CeremonyError>)
    requires p >= BRANCHING_FACTOR
    ensures r == Ok((Canonical(p, InitialSrs()), Genesis(OfFile(Canonical(p, InitialSrs())))))
  {
    var srs := InitialSrs();
    InitialIsUnit(p);
    var file := WriteSrs(p, srs);
    r := Ok((file.value, Genesis(OfFile(file.value))));
  }

  lemma {:induction false} InitialIsUnit(p: int)
    requires p >= BRANCHING_FACTOR
    ensures StructureOk(p, InitialSrs()) && WriteSrs(p, InitialSrs()).Ok?
  {
    UnitProgression(p, InitialSrs().g1Powers, 1);
    UnitIsNotDev(p, 1);
    DevIffTrapdoor(p, InitialSrs());
  }

  method Contribute(p: int, file: File, t: Transcript, id: string, seed: int)
    returns (r: Result<(File, Transcript), CeremonyError>)
    requires p >= BRANCHING_FACTOR
    ensures r.Ok? <==> Admitted(p, file, t, id, seed)
    ensures r.Ok? ==>
              var tau, srs := Applied(p, seed), LoadSrs(p, file).value;
              var after := Canonical(p, Scaled(srs, tau));
              r.value == (after, t.(contributions := t.contributions + [Record(p, file, after, id, tau)]))
  {
    if Text.Blank(id) {
      return Err(BlankParticipant);
    }
    var chain := ValidateChain(t);
    if chain.Err? {
      return Err(chain.error);
    }
    var cs := t.contributions;
    for i := 0 to |cs|
      invariant id !in Names(cs, i)
    {
      if cs[i].participant == id {
        NamesMembers(cs, |cs|, id);
        return Err(DuplicateParticipant);
      }
    }
    var loaded := LoadSrs(p, file);
    if loaded.Err? {
      return Err(loaded.error);
    }
    var incoming := loaded.value;
    var structure := VerifySrsStructure(p, incoming);
    if structure.Err? {
      return Err(structure.error);
    }
    if OfFile(file) != HeadHash(t) {
      return Err(WrongState);
    }
    var tau := Applied(p, seed);
    var factor, out := 1, [];
    for j := 0 to |incoming.g1Powers|
      invariant |out| == j && factor == Pow(tau, j)
      invariant forall i :: 0 <= i < j ==> out[i] == incoming.g1Powers[i] * Pow(tau, i)
    {
      out := out + [incoming.g1Powers[j] * factor];
      factor := factor * tau;
    }
    var srs := Srs(out, incoming.g2, incoming.g2Tau * tau, None);
    assert srs == Scaled(incoming, tau);
    var written := WriteSrs(p, srs);
    if written.Err? {
      return Err(written.error);
    }
    var challenge := OfChallenge(OfFile(file));
    var w, c := Encoded(tau % p), Encoded(out[1] % p);
    var record := Contribution(id, OfFile(file), OfFile(written.value), w, c, challenge,
                               OfAttestation(challenge, OfFile(written.value), w, c));
    r := Ok((written.value, t.(contributions := cs + [record])));
  }

  // ----- honest runs ----------------------------------------------------------------------

  datatype Round = Round(id: string, seed: int)

  /** The state after the first `k` rounds, when they all succeed. */
  ghost function Run(p: int, rounds: seq<Round>, k: nat): Option<(File, Transcript)>
    requires p > 0 && k <= |rounds|
  {
    if k == 0 then
      var file := Canonical(p, InitialSrs());
      Some((file, Genesis(OfFile(file))))
    else
      var before := Run(p, rounds, k - 1);
      if before.None? then None
      else Step(p, before.value.0, before.value.1, rounds[k - 1])
  }

  ghost function Step(p: int, file: File, t: Transcript, round: Round): Option<(File, Transcript)>
    requires p > 0
  {
    if !Admitted(p, file, t, round.id, round.seed) then None
    else
      var tau := Applied(p, round.seed);
      var after := Canonical(p, Scaled(LoadSrs(p, file).value, tau));
      Some((after, t.(contributions := t.contributions + [Record(p, file, after, round.id, tau)])))
  }

  function RunningProduct(p: int, rounds: seq<Round>, k: nat): int
    requires p > 0 && k <= |rounds|
  {
    if k == 0 then 1 else RunningProduct(p, rounds, k - 1) * Applied(p, rounds[k - 1].seed)
  }

  /** No applied scalar is one and no running product is the development trapdoor. */
  ghost predicate Effective(p: int, rounds: seq<Round>, k: nat)
    requires p > 0 && k <= |rounds|
  {
    forall i :: 0 <= i < k ==> EffectiveAt(p, rounds, i)
  }

  ghost predicate EffectiveAt(p: int, rounds: seq<Round>, i: nat)
    requires p > 0 && i < |rounds|
  {
    !Eq(p, Applied(p, rounds[i].seed), 1) && !Eq(p, RunningProduct(p, rounds, i + 1), DEV_TRAPDOOR_TAU)
  }

  /** The state file holds the canonical powers of `t` on the canonical generators. */
  ghost predicate HoldsPowers(p: int, file: File, t: int)
    requires p > 0
  {
    && file.SrsFile? && |file.g1| == BRANCHING_FACTOR
    && (forall j :: 0 <= j < |file.g1| ==> 0 <= file.g1[j] < p && Eq(p, file.g1[j], Pow(t, j)))
    && file.g2 == 1
    && 0 <= file.g2Tau < p && Eq(p, file.g2Tau, t)
  }

  ghost predicate Consistent(p: int, rounds: seq<Round>, k: nat, file: File, t: Transcript)
    requires p > 0 && k <= |rounds|
  {
    && HoldsPowers(p, file, RunningProduct(p, rounds, k))
    && HeadHash(t) == OfFile(file)
    && |t.contributions| == k
    && (forall i :: 0 <= i < k ==> t.contributions[i].participant == rounds[i].id)
    && RoundsOk(p, 1, t.contributions)
    && Eq(p, CumulativeBefore(t.contributions, k), RunningProduct(p, rounds, k))
    && ChainValid(t)
  }

  lemma {:induction false} PowMul(a: int, b: int, n: nat)
    ensures Pow(a, n) * Pow(b, n) == Pow(a * b, n)
  {
    if n > 0 {
      PowMul(a, b, n - 1);
      Interchange(a, Pow(a, n - 1), b, Pow(b, n - 1));
    }
  }

  lemma {:induction false} Interchange(a: int, x: int, b: int, y: int)
    ensures (a * x) * (b * y) == (a * b) * (x * y)
  {
  }

  lemma {:induction false} ProductNonzero(p: int, rounds: seq<Round>, k: nat)
    requires IsPrime(p) && k <= |rounds|
    ensures !Eq(p, RunningProduct(p, rounds, k), 0)
  {
    if k == 0 {
      Polynomial.DistinctScalars(p, 1, 0);
    } else {
      ProductNonzero(p, rounds, k - 1);
      var tau := Applied(p, rounds[k - 1].seed);
      if Eq(p, tau, 0) { Polynomial.DistinctScalars(p, 1, 0); }
      if Eq(p, RunningProduct(p, rounds, k), 0) {
        NoZeroDivisors(p, RunningProduct(p, rounds, k - 1), tau);
      }
    }
  }

  /** A file of powers loads and passes the structural checks unless its scalar is the trapdoor. */
  lemma {:induction false} PowersLoad(p: int, file: File, t: int)
    requires p >= BRANCHING_FACTOR && HoldsPowers(p, file, t)
    ensures LoadSrs(p, file).Ok? <==> !Eq(p, t, DEV_TRAPDOOR_TAU)
    ensures LoadSrs(p, file).Ok? ==> StructureOk(p, LoadSrs(p, file).value)
  {
    var srs := Srs(file.g1, file.g2, file.g2Tau, None);
    PowersProgress(p, file.g1, file.g2Tau, t);
    DevIffTrapdoor(p, srs);
    Refl(p, DEV_TRAPDOOR_TAU);
    EqIff(p, srs.g2Tau, DEV_TRAPDOOR_TAU, t, DEV_TRAPDOOR_TAU);
  }

  lemma {:induction false} PowersProgress(p: int, powers: seq<int>, s: int, t: int)
    requires p > 0 && Eq(p, s, t) && forall j :: 0 <= j < |powers| ==> Eq(p, powers[j], Pow(t, j))
    ensures Progression(p, powers, s)
  {
    Sym(p, s, t);
    forall j | 0 <= j < |powers|
      ensures Eq(p, powers[j], Pow(s, j))
    {
      PowEq(p, t, s, j);
      Trans(p, powers[j], Pow(t, j), Pow(s, j));
    }
  }

  /** Scaling moves the state from the powers of `t` to the powers of `t * tau`. */
  lemma {:induction false} ScaledPowers(p: int, file: File, srs: Srs, t: int, tau: int)
    requires p >= BRANCHING_FACTOR && HoldsPowers(p, file, t) && srs == Srs(file.g1, file.g2, file.g2Tau, None)
    ensures HoldsPowers(p, Canonical(p, Scaled(srs, tau)), t * tau)
  {
    var out := Scaled(srs, tau);
    var after := Canonical(p, out);
    forall j | 0 <= j < |after.g1|
      ensures 0 <= after.g1[j] < p && Eq(p, after.g1[j], Pow(t * tau, j))
    {
      Refl(p, Pow(tau, j));
      MulEq(p, file.g1[j], Pow(t, j), Pow(tau, j), Pow(tau, j));
      PowMul(t, tau, j);
      Residue(p, out.g1Powers[j]);
      Trans(p, after.g1[j], out.g1Powers[j], Pow(t * tau, j));
    }
    Refl(p, tau);
    MulEq(p, file.g2Tau, t, tau, tau);
    Residue(p, out.g2Tau);
    Trans(p, after.g2Tau, out.g2Tau, t * tau);
  }

  /** Writing the scaled state succeeds unless the new scalar is the trapdoor. */
  lemma {:induction false} ScaledWrites(p: int, file: File, srs: Srs, t: int, tau: int)
    requires p >= BRANCHING_FACTOR && HoldsPowers(p, file, t) && srs == Srs(file.g1, file.g2, file.g2Tau, None)
    ensures WriteSrs(p, Scaled(srs, tau)).Ok? <==> !Eq(p, t * tau, DEV_TRAPDOOR_TAU)
  {
    var out := Scaled(srs, tau);
    Refl(p, tau);
    MulEq(p, file.g2Tau, t, tau, tau);
    forall j | 0 <= j < |out.g1Powers|
      ensures Eq(p, out.g1Powers[j], Pow(t * tau, j))
    {
      Refl(p, Pow(tau, j));
      MulEq(p, file.g1[j], Pow(t, j), Pow(tau, j), Pow(tau, j));
      PowMul(t, tau, j);
    }
    PowersProgress(p, out.g1Powers, out.g2Tau, t * tau);
    DevIffTrapdoor(p, out);
    Refl(p, DEV_TRAPDOOR_TAU);
    EqIff(p, out.g2Tau, DEV_TRAPDOOR_TAU, t * tau, DEV_TRAPDOOR_TAU);
  }

  /** The state file changes exactly when the applied scalar is not one. */
  lemma {:induction false} FileChanges(p: int, before: File, after: File, t: int, tau: int)
    requires IsPrime(p) && HoldsPowers(p, before, t) && HoldsPowers(p, after, t * tau) && !Eq(p, t, 0)
    ensures before != after <==> !Eq(p, tau, 1)
  {
    if Eq(p, tau, 1) {
      TimesGenerator(p, t, tau);
      forall j | 0 <= j < BRANCHING_FACTOR
        ensures before.g1[j] == after.g1[j]
      {
        PowEq(p, t * tau, t, j);
        Trans(p, after.g1[j], Pow(t * tau, j), Pow(t, j));
        SameResidue(p, after.g1[j], before.g1[j], Pow(t, j));
      }
      Trans(p, after.g2Tau, t * tau, t);
      SameResidue(p, after.g2Tau, before.g2Tau, t);
      assert before.g1 == after.g1;
    } else if before == after {
      Sym(p, before.g2Tau, t);
      Trans(p, t, before.g2Tau, t * tau);
      Sym(p, t, t * tau);
      assert t * tau - t == t * (tau - 1);
      NoZeroDivisors(p, t, tau - 1);
    }
  }

  lemma {:induction false} SameResidue(p: int, a: int, b: int, c: int)
    requires p > 0 && 0 <= a < p && 0 <= b < p && Eq(p, a, c) && Eq(p, b, c)
    ensures a == b
  {
    Sym(p, b, c);
    Trans(p, a, c, b);
    if a != b { Polynomial.DistinctScalars(p, a, b); }
  }

  ghost predicate ProperIds(rounds: seq<Round>) {
    && (forall i :: 0 <= i < |rounds| ==> !Text.Blank(rounds[i].id))
    && (forall i, j :: 0 <= i < j < |rounds| ==> rounds[i].id != rounds[j].id)
  }

  /** Appending a record keeps a valid chain valid exactly when the record links. */
  lemma {:induction false} ChainExtends(t: Transcript, c: Contribution)
    requires ChainValid(t) && c.participant !in Names(t.contributions, |t.contributions|)
    ensures ChainValid(t.(contributions := t.contributions + [c])) <==> Links(c, HeadHash(t))
  {
    var cs, k := t.contributions, |t.contributions|;
    var t' := t.(contributions := cs + [c]);
    NamesMembers(cs, k, c.participant);
    assert DistinctParticipants(cs + [c], k + 1);
    assert LinksAt(t', k) <==> Links(c, HeadHash(t));
    forall i | 0 <= i < k
      ensures LinksAt(t', i)
    {
      assert LinksAt(t, i);
    }
  }

  lemma {:induction false} RoundsExtend(p: int, cs: seq<Contribution>, c: Contribution)
    requires p > 0 && RoundsOk(p, 1, cs) && RoundOk(p, 1, CumulativeBefore(cs, |cs|), c)
    ensures RoundsOk(p, 1, cs + [c])
  {
    forall i | 0 <= i < |cs| + 1
      ensures RoundAt(p, 1, cs + [c], i)
    {
      if i < |cs| { assert RoundAt(p, 1, cs, i); }
    }
  }

  /** The record of a contribution passes the round check of the verifier. */
  lemma {:induction false} RecordIsOk(p: int, before: File, after: File, id: string, t: int, tau: int, previous: int)
    requires p >= BRANCHING_FACTOR && HoldsPowers(p, after, t * tau) && Eq(p, previous, t)
    ensures RoundOk(p, 1, previous, Record(p, before, after, id, tau))
    ensures Eq(p, LogOf(Record(p, before, after, id, tau).cumulativeP1), t * tau)
  {
    assert Pow(t * tau, 1) == t * tau * Pow(t * tau, 0);
    Residue(p, tau);
    MulEq(p, previous, t, tau % p, tau);
    Sym(p, previous * (tau % p), t * tau);
    Trans(p, after.g1[1], t * tau, previous * (tau % p));
  }

  /** One honest round from a consistent state. */
  lemma {:induction false} HonestStep(p: int, rounds: seq<Round>, k: nat, file: File, t: Transcript)
    requires IsPrime(p) && p >= BRANCHING_FACTOR && k < |rounds| && ProperIds(rounds)
    requires Consistent(p, rounds, k, file, t) && !Eq(p, RunningProduct(p, rounds, k), DEV_TRAPDOOR_TAU)
    ensures var next := Step(p, file, t, rounds[k]);
            && (next.Some? <==> !Eq(p, RunningProduct(p, rounds, k + 1), DEV_TRAPDOOR_TAU))
            && (next.Some? ==> (ChainValid(next.value.1) <==> !Eq(p, Applied(p, rounds[k].seed), 1)))
            && (next.Some? && ChainValid(next.value.1) ==> Consistent(p, rounds, k + 1, next.value.0, next.value.1))
  {
    var cs, id, tau := t.contributions, rounds[k].id, Applied(p, rounds[k].seed);
    var product := RunningProduct(p, rounds, k);
    PowersLoad(p, file, product);
    var srs := LoadSrs(p, file).value;
    ScaledWrites(p, file, srs, product, tau);
    NamesMembers(cs, k, id);
    var next := Step(p, file, t, rounds[k]);
    if next.Some? {
      var after := Canonical(p, Scaled(srs, tau));
      var record := Record(p, file, after, id, tau);
      ScaledPowers(p, file, srs, product, tau);
      ProductNonzero(p, rounds, k);
      FileChanges(p, file, after, product, tau);
      ChainExtends(t, record);
      RecordIsOk(p, file, after, id, product, tau, CumulativeBefore(cs, k));
      RoundsExtend(p, cs, record);
    }
  }

  /** Honest runs: with proper participants, the first `k` rounds succeed and leave a valid transcript
      exactly when every one of them was effective, and then the state holds the powers of the
      running product. */
  lemma {:induction false} HonestRun(p: int, rounds: seq<Round>, k: nat)
    requires IsPrime(p) && p >= BRANCHING_FACTOR && k <= |rounds| && ProperIds(rounds)
    ensures var state := Run(p, rounds, k);
            && (state.Some? && ChainValid(state.value.1) <==> Effective(p, rounds, k))
            && (Effective(p, rounds, k) ==> Consistent(p, rounds, k, state.value.0, state.value.1))
  {
    if k == 0 {
      InitialConsistent(p, rounds);
    } else {
      HonestRun(p, rounds, k - 1);
      EffectiveStep(p, rounds, k - 1);
      if Effective(p, rounds, k - 1) {
        var before := Run(p, rounds, k - 1);
        NotYetTrapdoor(p, rounds, k - 1);
        HonestStep(p, rounds, k - 1, before.value.0, before.value.1);
      }
    }
  }

  lemma {:induction false} EffectiveStep(p: int, rounds: seq<Round>, k: nat)
    requires p > 0 && k < |rounds|
    ensures Effective(p, rounds, k + 1) <==> Effective(p, rounds, k) && EffectiveAt(p, rounds, k)
  {
  }

  lemma {:induction false} NotYetTrapdoor(p: int, rounds: seq<Round>, k: nat)
    requires p >= BRANCHING_FACTOR && k <= |rounds| && Effective(p, rounds, k)
    ensures !Eq(p, RunningProduct(p, rounds, k), DEV_TRAPDOOR_TAU)
  {
    if k == 0 { UnitIsNotDev(p, 1); } else { assert EffectiveAt(p, rounds, k - 1); }
  }

  lemma {:induction false} InitialConsistent(p: int, rounds: seq<Round>)
    requires p >= BRANCHING_FACTOR
    ensures var state := Run(p, rounds, 0); Consistent(p, rounds, 0, state.value.0, state.value.1)
  {
    var file := Canonical(p, InitialSrs());
    assert 1 % p == 1;
    forall j | 0 <= j < |file.g1|
      ensures 0 <= file.g1[j] < p && Eq(p, file.g1[j], Pow(1, j))
    {
      PowOne(j);
    }
  }

  /** The finished transcript of an honest run is accepted exactly when the rounds were effective and
      numerous enough. */
  lemma {:induction false} HonestCeremonyAccepted(p: int, rounds: seq<Round>, minimum: nat)
    requires IsPrime(p) && p >= BRANCHING_FACTOR && ProperIds(rounds)
    ensures var state := Run(p, rounds, |rounds|);
            (state.Some? && Accepts(p, state.value.0, state.value.1, minimum)) <==>
            (Effective(p, rounds, |rounds|) && minimum <= |rounds|)
  {
    var k := |rounds|;
    HonestRun(p, rounds, k);
    if Effective(p, rounds, k) {
      var (file, t) := Run(p, rounds, k).value;
      var product := RunningProduct(p, rounds, k);
      NotYetTrapdoor(p, rounds, k);
      PowersLoad(p, file, product);
      assert Pow(product, 1) == product * Pow(product, 0);
      Sym(p, file.g1[1], product);
      Trans(p, CumulativeBefore(t.contributions, k), product, file.g1[1]);
    }
  }
}
