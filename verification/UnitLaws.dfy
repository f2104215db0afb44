/** What every spelling of an amount is read as. */
module UnitLaws {
  import opened Basics
  import opened Outcomes
  import opened Text
  import opened Units

  /** SX or SXI, each letter in either case. */
  ghost predicate IsUnit(u: string) {
    && (|u| == 2 || |u| == 3) && u[0] in {'S', 's'} && u[1] in {'X', 'x'}
    && (|u| == 3 ==> u[2] in {'I', 'i'})
  }

  ghost predicate AllWhitespace(s: string) {
    forall i :: 0 <= i < |s| ==> IsWhitespace(s[i])
  }

  /** Not empty, and without white space at either end. */
  ghost predicate Trimmed(s: string) {
    s != "" && !IsWhitespace(s[0]) && !IsWhitespace(s[|s| - 1])
  }

  lemma {:induction false} TrimStartDrops(gap: string, s: string)
    requires AllWhitespace(gap) && s != "" && !IsWhitespace(s[0])
    ensures TrimStart(gap + s) == s
    decreases |gap|
  {
    if gap == "" {
      assert gap + s == s;
    } else {
      assert (gap + s)[1..] == gap[1..] + s;
      TrimStartDrops(gap[1..], s);
    }
  }

  lemma {:induction false} TrimEndDrops(s: string, gap: string)
    requires AllWhitespace(gap) && s != "" && !IsWhitespace(s[|s| - 1])
    ensures TrimEnd(s + gap) == s
    decreases |gap|
  {
    if gap == "" {
      assert s + gap == s;
    } else {
      assert (s + gap)[..|s + gap| - 1] == s + gap[..|gap| - 1];
      TrimEndDrops(s, gap[..|gap| - 1]);
    }
  }

  lemma {:induction false} TrimDrops(text: string, before: string, s: string, after: string)
    requires text == before + (s + after) && AllWhitespace(before) && AllWhitespace(after) && Trimmed(s)
    ensures Trim(text) == s
  {
    assert (s + after)[0] == s[0];
    TrimStartDrops(before, s + after);
    TrimEndDrops(s, after);
  }

  lemma {:induction false} UnitExactly(s: string)
    ensures EndsWithUpper(s, "SXI") <==> |s| >= 3 && IsUnit(s[|s| - 3..])
    ensures EndsWithUpper(s, "SX") <==> |s| >= 2 && IsUnit(s[|s| - 2..])
  {
    if |s| >= 3 {
      var u := s[|s| - 3..];
      assert u[0] == s[|s| - 3 + 0] && u[1] == s[|s| - 3 + 1] && u[2] == s[|s| - 3 + 2];
      assert "SXI"[0] == 'S' && "SXI"[1] == 'X' && "SXI"[2] == 'I';
    }
    if |s| >= 2 {
      var u := s[|s| - 2..];
      assert u[0] == s[|s| - 2 + 0] && u[1] == s[|s| - 2 + 1];
      assert "SX"[0] == 'S' && "SX"[1] == 'X';
    }
  }

  lemma {:induction false} UnitSplit(s: string, numeric: string, gap: string, unit: string)
    requires s == numeric + gap + unit && Trimmed(numeric) && IsUnit(unit)
    ensures Trimmed(s) && s[..|s| - |unit|] == numeric + gap
    ensures EndsWithUpper(s, "SXI") <==> |unit| == 3
    ensures |unit| == 2 ==> EndsWithUpper(s, "SX")
  {
    assert s[0] == numeric[0] && s[|s| - 1] == unit[|unit| - 1];
    assert s[|s| - |unit|..] == unit;
    UnitExactly(s);
    assert EndsWithUpper(s, "SXI") ==> s[|s| - 3..][2] == s[|s| - 1];
  }

  lemma {:induction false} UnitDropped(input: string, s: string, rest: string, numeric: string)
    requires Trim(input) == s && Trim(rest) == numeric
    requires if EndsWithUpper(s, "SXI") then rest == s[..|s| - 3] else EndsWithUpper(s, "SX") && rest == s[..|s| - 2]
    ensures ParseValue(input) == ParseSx(numeric)
  {
  }

  /** In any letter case, with or without white space around and before it, the unit SX reads the same
      as SXI, and what is left of it is the number of whole tokens. */
  lemma {:induction false} UnitsRead(text: string, before: string, numeric: string, gap: string, unit: string,
        after: string)
    requires text == before + (numeric + gap + unit + after)
    requires AllWhitespace(before) && AllWhitespace(gap) && AllWhitespace(after) && Trimmed(numeric)
    requires IsUnit(unit)
    ensures ParseValue(text) == ParseSx(numeric)
  {
    UnitRead(text, before, numeric + gap + unit, numeric, gap, unit, after);
  }

  lemma {:induction false} UnitRead(text: string, before: string, s: string, numeric: string, gap: string,
        unit: string, after: string)
    requires text == before + (s + after) && s == numeric + gap + unit
    requires AllWhitespace(before) && AllWhitespace(gap) && AllWhitespace(after) && Trimmed(numeric)
    requires IsUnit(unit)
    ensures ParseValue(text) == ParseSx(numeric)
  {
    UnitSplit(s, numeric, gap, unit);
    TrimDrops(text, before, s, after);
    GapDropped(s[..|s| - |unit|], numeric, gap);
    UnitDropped(text, s, s[..|s| - |unit|], numeric);
  }

  lemma {:induction false} GapDropped(rest: string, numeric: string, gap: string)
    requires rest == numeric + gap && AllWhitespace(gap) && Trimmed(numeric)
    ensures Trim(rest) == numeric
  {
    assert "" + (numeric + gap) == rest;
    TrimDrops(rest, "", numeric, gap);
  }

  lemma {:induction false} LastLetter(s: string, suffix: string)
    requires suffix != "" && EndsWithUpper(s, suffix)
    ensures Upper(s[|s| - 1]) == suffix[|suffix| - 1]
  {
    assert Upper(s[|s| - |suffix| + (|suffix| - 1)]) == suffix[|suffix| - 1];
  }

  lemma {:induction false} DigitsCarryNoUnit(d: string)
    requires d != "" && AllDigits(d)
    ensures !EndsWithUpper(d, "SXI") && !EndsWithUpper(d, "SX")
  {
    assert IsDigit(d[|d| - 1]);
    if EndsWithUpper(d, "SXI") { LastLetter(d, "SXI"); }
    if EndsWithUpper(d, "SX") { LastLetter(d, "SX"); }
  }

  /** Digits without a unit are an amount of the smallest unit, refused when they exceed 128 bits. */
  lemma {:induction false} PlainRead(n: nat)
    ensures ParseValue(Digits(n)) == if n < 0x1_00000000_00000000_00000000_00000000 then Ok(n) else Err(InvalidAmount)
  {
    var d := Digits(n);
    ValueOfDigits(n);
    assert IsDigit(d[0]) && IsDigit(d[|d| - 1]);
    DigitsCarryNoUnit(d);
    TrimKeeps(d);
  }

  /** Digits before a unit are whole tokens. */
  lemma {:induction false} WholeRead(whole: nat, amount: nat)
    requires whole <= MAX_U128 && amount == whole * 1_000_000_000_000_000_000
    ensures ParseSx(Digits(whole)) == if amount <= MAX_U128 then Ok(amount) else Err(Overflow)
  {
    ParseDigits(whole);
    assert FindDot(Digits(whole)).None?;
  }

  lemma {:induction false} PaddedFraction(fraction: string)
    requires AllDigits(fraction) && |fraction| <= 18
    ensures var s := RightPadded(fraction, 18);
      AllDigits(s) && |s| == 18 && Value(s) == Value(fraction) * TenTo(18 - |fraction|) < 1_000_000_000_000_000_000
  {
    var k := 18 - |fraction|;
    ValueConcat(fraction, Zeros(k));
    ValueOfZeros(k);
    assert RightPadded(fraction, 18) == fraction + Zeros(k);
    ValueBound(RightPadded(fraction, 18));
    EighteenDigits();
  }

  function Fractional(whole: nat, fraction: string): Result<nat, ParseError> {
    if |fraction| > 18 then Err(TooManyDecimals)
    else
      match ParseU128(RightPadded(fraction, 18))
      case None => Err(InvalidFraction)
      case Some(frac) => Checked(whole * 1_000_000_000_000_000_000 + frac)
  }

  lemma {:induction false} PointSplits(numeric: string, whole: nat, fraction: string)
    requires numeric == Digits(whole) + "." + fraction && whole <= MAX_U128
    ensures ParseSx(numeric) == Fractional(whole, fraction)
  {
    DotFound(Digits(whole), fraction);
    ParseDigits(whole);
  }

  /** A decimal number is read exactly: the fraction's digits count down from tenths.  More than eighteen
      of them are refused, and so is an amount that exceeds 128 bits. */
  lemma {:induction false} DecimalRead(whole: nat, fraction: string, amount: nat)
    requires whole <= MAX_U128 && AllDigits(fraction)
    requires |fraction| <= 18 ==>
      amount == whole * 1_000_000_000_000_000_000 + Value(fraction) * TenTo(18 - |fraction|)
    ensures ParseSx(Digits(whole) + "." + fraction) ==
      if |fraction| > 18 then Err(TooManyDecimals) else if amount <= MAX_U128 then Ok(amount) else Err(Overflow)
  {
    PointSplits(Digits(whole) + "." + fraction, whole, fraction);
    if |fraction| <= 18 {
      PaddedFraction(fraction);
      assert IsDigit(RightPadded(fraction, 18)[0]);
    }
  }

  /** The digit before the point may be left out. */
  lemma {:induction false} PointFirst(fraction: string)
    ensures ParseSx("." + fraction) == ParseSx("0." + fraction)
  {
    assert Digits(0) == "0" && "0." + fraction == "0" + "." + fraction;
    PointSplits("0." + fraction, 0, fraction);
    assert ("." + fraction)[1..] == fraction;
  }

  lemma {:induction false} SameFraction(whole: nat, a: string, b: string)
    requires |a| == |b| && ParseU128(RightPadded(a, 18)) == ParseU128(RightPadded(b, 18))
    ensures Fractional(whole, a) == Fractional(whole, b)
  {
  }

  lemma {:induction false} PlusPadded(digits: string)
    requires AllDigits(digits) && |digits| <= 17
    ensures ParseU128(RightPadded("+" + digits, 18)) == ParseU128(RightPadded("0" + digits, 18))
  {
    var tail := digits + Zeros(17 - |digits|);
    assert RightPadded("+" + digits, 18) == "+" + tail;
    assert RightPadded("0" + digits, 18) == "0" + tail;
    assert Zeros(1) == "0";
    assert ("+" + tail)[1..] == tail;
    LeadingZeros(1, tail);
  }

  /** A plus sign after the point is not refused: it is read as the digit zero. */
  lemma {:induction false} PlusReadsAsZero(whole: nat, digits: string, plus: string, zero: string)
    requires whole <= MAX_U128 && AllDigits(digits) && |digits| <= 17
    requires plus == "+" + digits && zero == "0" + digits
    ensures ParseSx(Digits(whole) + "." + plus) == ParseSx(Digits(whole) + "." + zero)
  {
    PointSplits(Digits(whole) + "." + plus, whole, plus);
    PointSplits(Digits(whole) + "." + zero, whole, zero);
    PlusPadded(digits);
    SameFraction(whole, plus, zero);
  }

  /** A text that does not end in a unit is read as a plain integer, and refused when it holds none. */
  lemma {:induction false} NoUnitRead(text: string, before: string, s: string, after: string)
    requires text == before + (s + after) && AllWhitespace(before) && AllWhitespace(after) && Trimmed(s)
    requires forall k :: 0 <= k < |s| ==> !IsUnit(s[k..])
    ensures ParseValue(text).Ok? ==> IsDigit(s[|s| - 1]) && ParseValue(text) == ParseValue(s)
    ensures !IsDigit(s[|s| - 1]) ==> ParseValue(text) == Err(InvalidAmount)
  {
    TrimDrops(text, before, s, after);
    TrimKeeps(s);
    UnitExactly(s);
  }

  lemma {:induction false} TrimStartAll(gap: string)
    requires AllWhitespace(gap)
    ensures TrimStart(gap) == ""
  {
    if gap != "" { TrimStartAll(gap[1..]); }
  }

  /** Blank input is no amount, with or without a unit. */
  lemma {:induction false} BlankRefused(gap: string)
    requires AllWhitespace(gap)
    ensures ParseValue(gap) == Err(InvalidAmount) && ParseSx("") == Err(InvalidAmount)
  {
    TrimStartAll(gap);
  }
}
