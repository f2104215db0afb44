/** The validator set, its voting power and the quorum thresholds. */
module Validators {
  import opened Basics

  datatype Address = Address(id: nat)

  datatype Validator = Validator(power: nat, active: bool)

  type ValidatorSet = map<Address, Validator>

  function Active(vs: ValidatorSet): set<Address> {
    set a | a in vs && vs[a].active
  }

  /** Those whose votes are counted: anyone in the set with voting power, active or not. */
  function Eligible(vs: ValidatorSet): set<Address> {
    set a | a in vs && vs[a].power > 0
  }

  function QuorumThreshold(vs: ValidatorSet): nat {
    var count := |Active(vs)|;
    if count == 0 then 0 else count * 2 / 3 + 1
  }

  /** The voting power that a set of validators holds together. */
  ghost function Power(vs: ValidatorSet, who: set<Address>): nat
    requires who <= vs.Keys
    decreases |who|
  {
    if who == {} then 0
    else
      var a :| a in who;
      vs[a].power + Power(vs, who - {a})
  }

  lemma {:induction false} PowerSplit(vs: ValidatorSet, who: set<Address>, a: Address)
    requires who <= vs.Keys && a in who
    ensures Power(vs, who) == vs[a].power + Power(vs, who - {a})
    decreases |who|
  {
    var b :| b in who && Power(vs, who) == vs[b].power + Power(vs, who - {b});
    if a != b {
      PowerSplit(vs, who - {b}, a);
      PowerSplit(vs, who - {a}, b);
      assert who - {a} - {b} == who - {b} - {a};
    }
  }

  lemma {:induction false} PowerAdds(vs: ValidatorSet, a: set<Address>, b: set<Address>)
    requires a <= vs.Keys && b <= vs.Keys && a !! b
    ensures Power(vs, a + b) == Power(vs, a) + Power(vs, b)
    decreases |a|
  {
    if a == {} {
      assert a + b == b;
    } else {
      var x :| x in a;
      PowerSplit(vs, a, x);
      PowerSplit(vs, a + b, x);
      PowerAdds(vs, a - {x}, b);
      assert (a - {x}) + b == a + b - {x};
    }
  }

  lemma {:induction false} PowerOverlap(vs: ValidatorSet, a: set<Address>, b: set<Address>)
    requires a <= vs.Keys && b <= vs.Keys
    ensures Power(vs, a) + Power(vs, b) == Power(vs, a + b) + Power(vs, a * b)
  {
    PowerAdds(vs, a - b, a * b);
    PowerAdds(vs, a - b, b);
    assert (a - b) + a * b == a && (a - b) + b == a + b;
  }

  lemma {:induction false} PowerMonotone(vs: ValidatorSet, a: set<Address>, b: set<Address>)
    requires a <= b <= vs.Keys
    ensures Power(vs, a) <= Power(vs, b)
  {
    PowerAdds(vs, a, b - a);
    assert a + (b - a) == b;
  }

  ghost function Members(list: seq<Address>): set<Address> {
    set i | 0 <= i < |list| :: list[i]
  }

  ghost predicate Distinct(list: seq<Address>) {
    forall i, j :: 0 <= i < j < |list| ==> list[i] != list[j]
  }

  lemma {:induction false} MembersGrow(list: seq<Address>, k: nat)
    requires k < |list|
    ensures Members(list[..k + 1]) == Members(list[..k]) + {list[k]}
  {
  }

  lemma {:induction false} DistinctSize(list: seq<Address>)
    requires Distinct(list)
    ensures |Members(list)| == |list|
    decreases |list|
  {
    if list != [] {
      var k := |list| - 1;
      DistinctSize(list[..k]);
      MembersGrow(list, k);
      assert list[..k + 1] == list;
      assert forall i :: 0 <= i < k ==> list[..k][i] != list[k];
    }
  }

  lemma {:induction false} Enumerate(who: set<Address>, n: nat) returns (list: seq<Address>)
    requires n <= |who|
    ensures |list| == n && Distinct(list) && forall i :: 0 <= i < n ==> list[i] in who
    decreases n
  {
    if n == 0 {
      list := [];
    } else {
      var a :| a in who;
      var rest := Enumerate(who - {a}, n - 1);
      list := [a] + rest;
    }
  }

  /** The power of a list of distinct validators, added up with 64-bit saturation. */
  method SumPower(vs: ValidatorSet, list: seq<Address>) returns (total: nat)
    requires Distinct(list) && Members(list) <= vs.Keys
    ensures total == Saturated(Power(vs, Members(list)), MAX_U64)
  {
    total := 0;
    assert Members([]) == {};
    for k := 0 to |list|
      invariant Members(list[..k]) <= vs.Keys && total == Saturated(Power(vs, Members(list[..k])), MAX_U64)
    {
      MembersGrow(list, k);
      assert list[k] in Members(list);
      assert list[k] !in Members(list[..k]);
      PowerSplit(vs, Members(list[..k + 1]), list[k]);
      assert Members(list[..k + 1]) - {list[k]} == Members(list[..k]);
      total := Saturated(total + vs[list[k]].power, MAX_U64);
    }
    assert list[..|list|] == list;
  }

  ghost function RequiredPower(vs: ValidatorSet): nat {
    var total := Saturated(Power(vs, Active(vs)), MAX_U64);
    if total == 0 then 0 else total * 2 / 3 + 1
  }

  method RequiredQuorumVotingPower(vs: ValidatorSet, active: seq<Address>) returns (required: nat)
    requires Distinct(active) && Members(active) == Active(vs)
    ensures required == RequiredPower(vs)
  {
    var total := SumPower(vs, active);
    if total == 0 {
      return 0;
    }
    var quorum := total * 2 / 3 + 1;
    return Saturated(quorum, MAX_U64);
  }

  /** The least number of votes, and the least power, that is more than two thirds. */
  lemma {:induction false} ThresholdsAreLeast(vs: ValidatorSet)
    ensures var count, t := |Active(vs)|, QuorumThreshold(vs);
      if count == 0 then t == 0 else 3 * t > 2 * count >= 3 * (t - 1)
    ensures var total, r := Saturated(Power(vs, Active(vs)), MAX_U64), RequiredPower(vs);
      if total == 0 then r == 0 else 3 * r > 2 * total >= 3 * (r - 1) && r <= MAX_U64
  {
  }

  // ----- quorum arithmetic ----------------------------------------------------------------

  /** Any two sets of active validators that meet the count threshold share more than a third of
      the active validators, and the active validators together meet it. */
  lemma {:induction false} CountOverlap(vs: ValidatorSet, a: set<Address>, b: set<Address>)
    requires a <= Active(vs) && b <= Active(vs) && Active(vs) != {}
    requires |a| >= QuorumThreshold(vs) && |b| >= QuorumThreshold(vs)
    ensures 3 * |a * b| > |Active(vs)|
    ensures |Active(vs)| >= QuorumThreshold(vs)
  {
    SubsetSize(a + b, Active(vs));
  }

  ghost predicate MeetsPower(vs: ValidatorSet, who: set<Address>) {
    who <= Active(vs) && Saturated(Power(vs, who), MAX_U64) >= RequiredPower(vs)
  }

  /** Any two sets of active validators that meet the power threshold share more than a third of the
      total power, as long as that total hardly exceeds 64 bits; and the active validators together
      meet it. */
  lemma {:induction false} PowerQuorumOverlap(vs: ValidatorSet, a: set<Address>, b: set<Address>)
    requires MeetsPower(vs, a) && MeetsPower(vs, b) && 0 < Power(vs, Active(vs)) <= MAX_U64 + 1
    ensures 3 * Power(vs, a * b) > Power(vs, Active(vs))
    ensures MeetsPower(vs, Active(vs))
  {
    PowerOverlap(vs, a, b);
    PowerMonotone(vs, a + b, Active(vs));
  }

  /** The two thresholds that a certificate's signers have to meet. */
  ghost predicate MeetsQuorum(vs: ValidatorSet, who: set<Address>) {
    MeetsPower(vs, who) && |who| >= QuorumThreshold(vs)
  }

  ghost predicate SharesThird(vs: ValidatorSet, a: set<Address>, b: set<Address>) {
    (MeetsQuorum(vs, a) && MeetsQuorum(vs, b)) ==> 3 * Power(vs, a * b) > Power(vs, Active(vs))
  }

  /** Every power is a 64-bit number, no active validator is without power, as the set admits none, and
      the active ones add up to `total`. */
  ghost predicate HasTotal(vs: ValidatorSet, total: nat) {
    && (forall a :: a in vs ==> vs[a].power <= MAX_U64 && (vs[a].active ==> vs[a].power > 0))
    && Power(vs, Active(vs)) == total
  }

  ghost predicate AlwaysOverlap(total: nat) {
    forall vs: ValidatorSet, a: set<Address>, b: set<Address> :: HasTotal(vs, total) ==> SharesThird(vs, a, b)
  }

  /** Any two quorums share more than a third of the power, for all validator sets of a total, exactly
      when the total is positive and at most one above the largest 64-bit number. */
  lemma {:induction false} PowerOverlapExactly(total: nat)
    ensures AlwaysOverlap(total) <==> 0 < total <= MAX_U64 + 1
  {
    if 0 < total <= MAX_U64 + 1 {
      forall vs: ValidatorSet, a: set<Address>, b: set<Address> | HasTotal(vs, total)
        ensures SharesThird(vs, a, b)
      {
        if MeetsQuorum(vs, a) && MeetsQuorum(vs, b) { PowerQuorumOverlap(vs, a, b); }
      }
    } else {
      var vs, a, b := Separated(total);
      assert !SharesThird(vs, a, b);
    }
  }

  // ----- a total too large ----------------------------------------------------------------

  function Line(powers: seq<nat>): ValidatorSet {
    map a | a in Range(0, |powers|) :: Validator(powers[a.id], true)
  }

  function Range(lo: nat, hi: nat): (r: set<Address>)
    ensures forall a :: a in r <==> lo <= a.id < hi
  {
    set i | lo <= i < hi :: Address(i)
  }

  function Sum(powers: seq<nat>, lo: nat, hi: nat): nat
    requires lo <= hi <= |powers|
    decreases hi
  {
    if lo == hi then 0 else Sum(powers, lo, hi - 1) + powers[hi - 1]
  }

  lemma {:induction false} LineActive(powers: seq<nat>)
    ensures Active(Line(powers)) == Line(powers).Keys == Range(0, |powers|)
  {
  }

  lemma {:induction false} RangeSize(lo: nat, hi: nat)
    requires lo <= hi
    ensures |Range(lo, hi)| == hi - lo
    decreases hi
  {
    if lo == hi {
      assert Range(lo, hi) == {};
    } else {
      RangeSize(lo, hi - 1);
      assert Range(lo, hi) == Range(lo, hi - 1) + {Address(hi - 1)};
    }
  }

  lemma {:induction false} RangePower(powers: seq<nat>, lo: nat, hi: nat)
    requires lo <= hi <= |powers|
    ensures Range(lo, hi) <= Line(powers).Keys && Power(Line(powers), Range(lo, hi)) == Sum(powers, lo, hi)
    decreases hi
  {
    if lo == hi {
      assert Range(lo, hi) == {};
    } else {
      RangePower(powers, lo, hi - 1);
      assert Range(lo, hi) - {Address(hi - 1)} == Range(lo, hi - 1);
      PowerSplit(Line(powers), Range(lo, hi), Address(hi - 1));
    }
  }

  lemma {:induction false} LineTotal(powers: seq<nat>, total: nat)
    requires Sum(powers, 0, |powers|) == total && forall i :: 0 <= i < |powers| ==> 0 < powers[i] <= MAX_U64
    ensures HasTotal(Line(powers), total) && |Active(Line(powers))| == |powers|
  {
    LineActive(powers);
    RangePower(powers, 0, |powers|);
    RangeSize(0, |powers|);
  }

  lemma {:induction false} RangeIsQuorum(powers: seq<nat>, lo: nat, hi: nat, total: nat, required: nat)
    requires lo <= hi <= |powers| && HasTotal(Line(powers), total) && |Active(Line(powers))| == |powers|
    requires Sum(powers, lo, hi) >= required && 3 * (hi - lo) >= 2 * |powers| + 1
    requires required == Saturated(total, MAX_U64) * 2 / 3 + 1 <= MAX_U64 && total > 0
    ensures MeetsQuorum(Line(powers), Range(lo, hi))
  {
    LineActive(powers);
    RangePower(powers, lo, hi);
    RangeSize(lo, hi);
  }

  lemma {:induction false} SumSplit(powers: seq<nat>, lo: nat, middle: nat, hi: nat)
    requires lo <= middle <= hi <= |powers|
    ensures Sum(powers, lo, hi) == Sum(powers, lo, middle) + Sum(powers, middle, hi)
    decreases hi
  {
    if middle < hi { SumSplit(powers, lo, middle, hi - 1); }
  }

  lemma {:induction false} SumOfOnes(powers: seq<nat>, lo: nat, hi: nat)
    requires lo <= hi <= |powers| && forall i :: lo <= i < hi ==> powers[i] == 1
    ensures Sum(powers, lo, hi) == hi - lo
    decreases hi
  {
    if lo < hi { SumOfOnes(powers, lo, hi - 1); }
  }

  lemma {:induction false} SumOfSuffix(powers: seq<nat>, suffix: seq<nat>, k: nat, n: nat)
    requires k <= |powers| && powers[k..] == suffix && n <= |suffix|
    ensures Sum(powers, k, k + n) == Sum(suffix, 0, n)
    decreases n
  {
    if n > 0 {
      SumOfSuffix(powers, suffix, k, n - 1);
      assert powers[k + n - 1] == powers[k..][n - 1];
    }
  }

  /** Positive 64-bit powers that add up to `total`, as few as possible. */
  function Shares(total: nat): (r: seq<nat>)
    ensures forall i :: 0 <= i < |r| ==> 0 < r[i] <= MAX_U64
    decreases total
  {
    if total == 0 then [] else Shares(total - Saturated(total, MAX_U64)) + [Saturated(total, MAX_U64)]
  }

  lemma {:induction false} SharesShort(total: nat)
    ensures total <= |Shares(total)| * MAX_U64 < total + MAX_U64
    decreases total
  {
    if total > 0 { SharesShort(total - Saturated(total, MAX_U64)); }
  }

  lemma {:induction false} SharesSum(total: nat)
    ensures Sum(Shares(total), 0, |Shares(total)|) == total
    decreases total
  {
    if total > 0 {
      var part := Saturated(total, MAX_U64);
      SharesSum(total - part);
      SumOfPrefix(Shares(total - part), [part], |Shares(total - part)|);
    }
  }

  lemma {:induction false} SumOfPrefix(prefix: seq<nat>, rest: seq<nat>, n: nat)
    requires n <= |prefix|
    ensures Sum(prefix + rest, 0, n) == Sum(prefix, 0, n)
    decreases n
  {
    if n > 0 { SumOfPrefix(prefix, rest, n - 1); }
  }

  /** Two validators of power `outer`, between them `count` of power one and another that brings them
      to `inner`, and beside them validators that share `rest`. */
  function Separate(outer: nat, inner: nat, count: nat, rest: nat): seq<nat>
    requires inner > count
  {
    [outer, inner - count] + seq(count, _ => 1) + [outer] + Shares(rest)
  }

  lemma {:induction false} SeparateSums(outer: nat, inner: nat, count: nat, rest: nat)
    requires inner > count
    ensures var ps, k := Separate(outer, inner, count, rest), count + 2;
      && Sum(ps, 0, k) == Sum(ps, 1, k + 1) == outer + inner && Sum(ps, 1, k) == inner
      && Sum(ps, 0, |ps|) == outer + inner + outer + rest
  {
    var ps, k := Separate(outer, inner, count, rest), count + 2;
    SumOfOnes(ps, 2, k);
    SumSplit(ps, 0, 2, k);
    SumSplit(ps, 1, 2, k);
    assert Sum(ps, 1, 2) == Sum(ps, 1, 1) + (inner - count) && Sum(ps, 0, 1) == Sum(ps, 0, 0) + outer;
    assert Sum(ps, 1, k + 1) == Sum(ps, 1, k) + ps[k];
    SumSplit(ps, 0, k + 1, |ps|);
    SumOfSuffix(ps, Shares(rest), k + 1, |Shares(rest)|);
    SharesSum(rest);
  }

  lemma {:induction false} SeparateBounds(outer: nat, inner: nat, count: nat, rest: nat)
    requires 0 < outer <= MAX_U64 && count < inner <= count + MAX_U64
    ensures var ps := Separate(outer, inner, count, rest);
      forall i :: 0 <= i < |ps| ==> 0 < ps[i] <= MAX_U64
  {
  }

  lemma {:induction false} TwoQuorums(ps: seq<nat>, k: nat, inner: nat, total: nat, required: nat)
    requires 1 <= k < |ps| && 3 * k >= 2 * |ps| + 1 && forall i :: 0 <= i < |ps| ==> 0 < ps[i] <= MAX_U64
    requires Sum(ps, 0, k) == Sum(ps, 1, k + 1) >= required && Sum(ps, 1, k) == inner && Sum(ps, 0, |ps|) == total
    requires required == Saturated(total, MAX_U64) * 2 / 3 + 1 <= MAX_U64 && total > 0
    ensures HasTotal(Line(ps), total) && MeetsQuorum(Line(ps), Range(0, k)) && MeetsQuorum(Line(ps), Range(1, k + 1))
    ensures Range(1, k) <= Line(ps).Keys && Power(Line(ps), Range(1, k)) == inner
  {
    LineTotal(ps, total);
    RangeIsQuorum(ps, 0, k, total, required);
    RangeIsQuorum(ps, 1, k + 1, total, required);
    RangePower(ps, 1, k);
  }

  lemma {:induction false} Arrange(outer: nat, inner: nat, count: nat, rest: nat) returns (ps: seq<nat>)
    requires 0 < outer <= MAX_U64 && count < inner <= count + MAX_U64
    ensures |ps| == count + 3 + |Shares(rest)| && forall i :: 0 <= i < |ps| ==> 0 < ps[i] <= MAX_U64
    ensures Sum(ps, 0, count + 2) == Sum(ps, 1, count + 3) == outer + inner && Sum(ps, 1, count + 2) == inner
    ensures Sum(ps, 0, |ps|) == outer + inner + outer + rest
  {
    SeparateSums(outer, inner, count, rest);
    SeparateBounds(outer, inner, count, rest);
    ps := Separate(outer, inner, count, rest);
  }

  /** How a total above 2^64 is divided so that the middle holds at most a third of it. */
  lemma {:induction false} Division(total: nat, required: nat) returns (outer: nat, inner: nat, count: nat, rest: nat)
    requires total > MAX_U64 + 1 && required == MAX_U64 * 2 / 3 + 1
    ensures outer + inner + outer + rest == total && outer + inner >= required && 3 * inner <= total
    ensures 0 < outer <= MAX_U64 && count < inner <= count + MAX_U64 && count >= 2 * |Shares(rest)| + 1
  {
    SharesShort(total);
    count := 2 * |Shares(total)| + 1;
    inner := if 2 * required - total > count then 2 * required - total else count + 1;
    outer := if required > inner then required - inner else 1;
    rest := total - inner - 2 * outer;
    SharesShort(rest);
    assert |Shares(rest)| <= |Shares(total)|;
  }

  /** Validators of any other total, with two quorums that share at most a third of the power.  Eight
      validators do for the totals next above 2^64; the cap on their number is not considered. */
  lemma {:induction false} Separated(total: nat) returns (vs: ValidatorSet, a: set<Address>, b: set<Address>)
    requires !(0 < total <= MAX_U64 + 1)
    ensures HasTotal(vs, total) && MeetsQuorum(vs, a) && MeetsQuorum(vs, b)
    ensures 3 * Power(vs, a * b) <= total
  {
    if total == 0 {
      vs, a, b := map[], {}, {};
    } else {
      var required := MAX_U64 * 2 / 3 + 1;
      var outer, inner, count, rest := Division(total, required);
      var ps := Arrange(outer, inner, count, rest);
      TwoQuorums(ps, count + 2, inner, total, required);
      vs, a, b := Line(ps), Range(0, count + 2), Range(1, count + 3);
      assert a * b == Range(1, count + 2);
    }
  }
}
