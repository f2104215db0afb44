/** Printing and parsing token amounts: 1 SXI is 10^18 aSXI. */
module Units {
  import opened Basics
  import opened Outcomes
  import opened Text

  const ASX_PER_SX: nat := 1_000_000_000_000_000_000

  datatype ParseError = InvalidAmount | TooManyDecimals | InvalidFraction | Overflow

  // ----- decimal numerals -----------------------------------------------------------------

  function TenTo(k: nat): (r: nat)
    ensures r > 0
  {
    if k == 0 then 1 else 10 * TenTo(k - 1)
  }

  predicate IsDigit(c: char) { '0' <= c <= '9' }

  function DigitValue(c: char): nat
    requires IsDigit(c)
  {
    c as int - '0' as int
  }

  function DigitOf(d: nat): (c: char)
    requires d < 10
    ensures IsDigit(c) && DigitValue(c) == d
  {
    ('0' as int + d) as char
  }

  predicate AllDigits(s: string) {
    forall i :: 0 <= i < |s| ==> IsDigit(s[i])
  }

  /** The number that a string of digits denotes. */
  function Value(s: string): nat
    requires AllDigits(s)
    decreases |s|
  {
    if s == "" then 0 else 10 * Value(s[..|s| - 1]) + DigitValue(s[|s| - 1])
  }

  function Digits(n: nat): (s: string)
    ensures s != "" && AllDigits(s)
    decreases n
  {
    if n < 10 then [DigitOf(n)] else Digits(n / 10) + [DigitOf(n % 10)]
  }

  lemma {:induction false} ValueOfDigits(n: nat)
    ensures Value(Digits(n)) == n
    decreases n
  {
    if n < 10 {
      assert [DigitOf(n)][..0] == "";
    } else {
      ValueOfDigits(n / 10);
      assert Digits(n)[..|Digits(n)| - 1] == Digits(n / 10);
    }
  }

  lemma {:induction false} DigitsLength(n: nat, k: nat)
    requires k > 0 && n < TenTo(k)
    ensures |Digits(n)| <= k
    decreases k
  {
    if n >= 10 { DigitsLength(n / 10, k - 1); }
  }

  function Zeros(k: nat): (s: string)
    ensures |s| == k && AllDigits(s) && forall i :: 0 <= i < k ==> s[i] == '0'
  {
    seq(k, _ => '0')
  }

  lemma {:induction false} ValueConcat(a: string, b: string)
    requires AllDigits(a) && AllDigits(b)
    ensures AllDigits(a + b) && Value(a + b) == Value(a) * TenTo(|b|) + Value(b)
    decreases |b|
  {
    if b == "" {
      assert a + b == a;
    } else {
      var c := b[..|b| - 1];
      ValueConcat(a, c);
      assert (a + b)[..|a + b| - 1] == a + c;
      Distribute(Value(a), TenTo(|c|), Value(c), DigitValue(b[|b| - 1]));
    }
  }

  lemma {:induction false} Distribute(a: int, t: int, c: int, d: int)
    ensures 10 * (a * t + c) + d == a * (10 * t) + (10 * c + d)
  {
  }

  lemma {:induction false} ValueOfZeros(k: nat)
    ensures Value(Zeros(k)) == 0
    decreases k
  {
    if k > 0 {
      ValueOfZeros(k - 1);
      assert Zeros(k)[..k - 1] == Zeros(k - 1);
    }
  }

  lemma {:induction false} ValueBound(s: string)
    requires AllDigits(s)
    ensures Value(s) < TenTo(|s|)
    decreases |s|
  {
    if s != "" { ValueBound(s[..|s| - 1]); }
  }

  /** At least `width` digits, with zeros on the left. */
  function ZeroPadded(n: nat, width: nat): string {
    var d := Digits(n);
    if |d| >= width then d else Zeros(width - |d|) + d
  }

  lemma {:induction false} LeadingZeros(k: nat, d: string)
    requires AllDigits(d)
    ensures AllDigits(Zeros(k) + d) && Value(Zeros(k) + d) == Value(d)
  {
    ValueConcat(Zeros(k), d);
    ValueOfZeros(k);
    ZeroTimes(TenTo(|d|));
  }

  lemma {:induction false} ZeroTimes(n: int)
    ensures 0 * n == 0
  {
  }

  lemma {:induction false} ZeroPaddedValue(n: nat, width: nat)
    requires width > 0 && n < TenTo(width)
    ensures var s := ZeroPadded(n, width); AllDigits(s) && |s| == width && Value(s) == n
  {
    DigitsLength(n, width);
    ValueOfDigits(n);
    if |Digits(n)| < width { LeadingZeros(width - |Digits(n)|, Digits(n)); }
  }

  /** Padding on the right with zeros to `width`. */
  function RightPadded(s: string, width: nat): string {
    if |s| >= width then s else s + Zeros(width - |s|)
  }

  function WithoutTrailingZeros(s: string): (r: string)
    ensures |r| <= |s| && r == s[..|r|] && (AllDigits(s) ==> AllDigits(r))
    ensures forall i :: |r| <= i < |s| ==> s[i] == '0'
    decreases |s|
  {
    if s != "" && s[|s| - 1] == '0' then WithoutTrailingZeros(s[..|s| - 1]) else s
  }

  lemma {:induction false} ZerosRestored(s: string)
    ensures RightPadded(WithoutTrailingZeros(s), |s|) == s
  {
  }

  // ----- printing -------------------------------------------------------------------------

  function Plain(whole: nat): string { Digits(whole) + " SXI" }

  function Decimal(whole: nat, fraction: string): string { Digits(whole) + "." + fraction + " SXI" }

  function FormatSx(x: nat): string {
    Printed(x / ASX_PER_SX, x % ASX_PER_SX)
  }

  function Printed(whole: nat, frac: nat): string {
    if frac == 0 then Plain(whole) else Decimal(whole, Significant(frac))
  }

  /** The eighteen digits of a fraction, trailing zeros dropped. */
  function Significant(frac: nat): string {
    WithoutTrailingZeros(ZeroPadded(frac, 18))
  }

  function FirstNine(s: string): string {
    WithoutTrailingZeros(if |s| < 9 then s else s[..9])
  }

  function FormatSxCompact(x: nat): string {
    if x == 0 then "0 SXI"
    else if x < ASX_PER_SX / 1_000_000 then Digits(x) + " aSXI"
    else PrintedShort(x / ASX_PER_SX, x % ASX_PER_SX)
  }

  function PrintedShort(whole: nat, frac: nat): string {
    if frac == 0 then Plain(whole)
    else
      var shown := FirstNine(Significant(frac));
      if shown == "" then Plain(whole) else Decimal(whole, shown)
  }

  // ----- parsing --------------------------------------------------------------------------

  function TrimStart(s: string): string
    decreases |s|
  {
    if s != "" && IsWhitespace(s[0]) then TrimStart(s[1..]) else s
  }

  function TrimEnd(s: string): string
    decreases |s|
  {
    if s != "" && IsWhitespace(s[|s| - 1]) then TrimEnd(s[..|s| - 1]) else s
  }

  function Trim(s: string): string { TrimEnd(TrimStart(s)) }

  function Upper(c: char): char {
    if 'a' <= c <= 'z' then (c as int - 32) as char else c
  }

  predicate EndsWithUpper(s: string, suffix: string) {
    |s| >= |suffix| && forall i :: 0 <= i < |suffix| ==> Upper(s[|s| - |suffix| + i]) == suffix[i]
  }

  function FindDot(s: string): (r: Option<nat>)
    ensures r.Some? ==> r.value < |s| && s[r.value] == '.' && forall i :: 0 <= i < r.value ==> s[i] != '.'
    ensures r.None? ==> forall i :: 0 <= i < |s| ==> s[i] != '.'
    decreases |s|
  {
    if s == "" then None
    else if s[0] == '.' then Some(0)
    else match FindDot(s[1..])
      case Some(k) => Some(k + 1)
      case None => None
  }

  /** An unsigned 128-bit integer: an optional plus sign and at least one digit. */
  function ParseU128(s: string): Option<nat> {
    var d := if s != "" && s[0] == '+' then s[1..] else s;
    if d == "" || !AllDigits(d) || Value(d) > MAX_U128 then None else Some(Value(d))
  }

  function Checked(n: nat): Result<nat, ParseError> {
    if n > MAX_U128 then Err(Overflow) else Ok(n)
  }

  function ParseSx(numeric: string): Result<nat, ParseError> {
    if numeric == "" then Err(InvalidAmount)
    else
      match FindDot(numeric)
      case None =>
        (match ParseU128(numeric)
         case None => Err(InvalidAmount)
         case Some(whole) => Checked(whole * ASX_PER_SX))
      case Some(dot) =>
        var whole := if dot == 0 then Some(0) else ParseU128(numeric[..dot]);
        var fraction := numeric[dot + 1..];
        if whole.None? then Err(InvalidAmount)
        else if |fraction| > 18 then Err(TooManyDecimals)
        else
          match ParseU128(RightPadded(fraction, 18))
          case None => Err(InvalidFraction)
          case Some(frac) => Checked(whole.value * ASX_PER_SX + frac)
  }

  function ParseValue(input: string): Result<nat, ParseError> {
    var s := Trim(input);
    if EndsWithUpper(s, "SXI") then ParseSx(Trim(s[..|s| - 3]))
    else if EndsWithUpper(s, "SX") then ParseSx(Trim(s[..|s| - 2]))
    else
      match ParseU128(s)
      case Some(n) => Ok(n)
      case None => Err(InvalidAmount)
  }

  // ----- round trips ----------------------------------------------------------------------

  lemma {:induction false} TrimKeeps(s: string)
    requires s != "" && !IsWhitespace(s[0]) && !IsWhitespace(s[|s| - 1])
    ensures Trim(s) == s && Trim(s + " ") == s
  {
  }

  /** What is printed before the unit is what the parser reads. */
  lemma {:induction false} ReadsBack(text: string, numeric: string)
    requires text == numeric + " SXI"
    requires numeric != "" && !IsWhitespace(numeric[0]) && !IsWhitespace(numeric[|numeric| - 1])
    ensures ParseValue(text) == ParseSx(numeric)
  {
    TrimKeeps(text);
    TrimKeeps(numeric);
    assert text[..|text| - 3] == numeric + " ";
    assert EndsWithUpper(text, "SXI");
  }

  lemma {:induction false} ParseDigits(n: nat)
    requires n <= MAX_U128
    ensures ParseU128(Digits(n)) == Some(n)
  {
    ValueOfDigits(n);
    assert IsDigit(Digits(n)[0]);
  }

  lemma {:induction false} ParseWhole(text: string, whole: nat, amount: nat)
    requires text == Plain(whole) && amount == whole * ASX_PER_SX <= MAX_U128
    ensures ParseValue(text) == Ok(amount)
  {
    var d := Digits(whole);
    assert IsDigit(d[0]) && IsDigit(d[|d| - 1]);
    ReadsBack(text, d);
    ParseDigits(whole);
    assert FindDot(d).None?;
  }

  /** Eighteen digits denote a fraction once zeros are added on the right. */
  ghost predicate Denotes(fraction: string, frac: nat) {
    var s := RightPadded(fraction, 18);
    fraction != "" && |s| == 18 && AllDigits(s) && Value(s) == frac
  }

  /** A whole part and a fraction of at most eighteen digits denote what they say. */
  lemma {:induction false} ParseDecimal(text: string, whole: nat, fraction: string, frac: nat, amount: nat)
    requires text == Decimal(whole, fraction) && Denotes(fraction, frac)
    requires amount == whole * ASX_PER_SX + frac <= MAX_U128
    ensures ParseValue(text) == Ok(amount)
  {
    var numeric := Digits(whole) + "." + fraction;
    PrintedDecimal(whole, fraction);
    ReadDecimal(numeric, whole, fraction, frac, amount);
    ReadsBack(text, numeric);
  }

  lemma {:induction false} ReadDecimal(numeric: string, whole: nat, fraction: string, frac: nat, amount: nat)
    requires numeric == Digits(whole) + "." + fraction && Denotes(fraction, frac)
    requires amount == whole * ASX_PER_SX + frac <= MAX_U128
    ensures ParseSx(numeric) == Ok(amount)
  {
    DotFound(Digits(whole), fraction);
    ParseFraction(fraction, frac);
    ParseDigits(whole);
  }

  lemma {:induction false} PrintedDecimal(whole: nat, fraction: string)
    requires fraction != "" && AllDigits(RightPadded(fraction, 18))
    ensures var numeric := Digits(whole) + "." + fraction;
      !IsWhitespace(numeric[0]) && !IsWhitespace(numeric[|numeric| - 1])
  {
    var numeric := Digits(whole) + "." + fraction;
    assert numeric[0] == Digits(whole)[0] && IsDigit(Digits(whole)[0]);
    assert numeric[|numeric| - 1] == RightPadded(fraction, 18)[|fraction| - 1];
    assert IsDigit(RightPadded(fraction, 18)[|fraction| - 1]);
  }

  lemma {:induction false} ParseFraction(fraction: string, frac: nat)
    requires Denotes(fraction, frac) && frac <= MAX_U128
    ensures |fraction| <= 18 && ParseU128(RightPadded(fraction, 18)) == Some(frac)
  {
  }

  lemma {:induction false} DotFound(d: string, fraction: string)
    requires d != "" && AllDigits(d)
    ensures var numeric := d + "." + fraction;
      FindDot(numeric) == Some(|d|) && numeric[..|d|] == d && numeric[|d| + 1..] == fraction
  {
    var numeric := d + "." + fraction;
    assert numeric[|d|] == '.';
    assert forall i :: 0 <= i < |d| ==> numeric[i] == d[i] && IsDigit(numeric[i]);
  }

  lemma {:induction false} EighteenDigits()
    ensures TenTo(18) == ASX_PER_SX && TenTo(9) == 1_000_000_000
  {
  }

  lemma {:induction false} Split(x: nat) returns (whole: nat, frac: nat)
    ensures frac < ASX_PER_SX && x == whole * ASX_PER_SX + frac
    ensures FormatSx(x) == Printed(whole, frac)
    ensures x >= 1_000_000_000_000 ==> FormatSxCompact(x) == PrintedShort(whole, frac)
  {
    whole, frac := x / ASX_PER_SX, x % ASX_PER_SX;
  }

  lemma {:induction false} LowDigits(whole: nat, frac: nat)
    ensures (whole * ASX_PER_SX + frac) % 1_000_000_000 == frac % 1_000_000_000
  {
    var q := whole * 1_000_000_000 + frac / 1_000_000_000;
    UniqueRemainder(1_000_000_000, whole * ASX_PER_SX + frac, q, frac % 1_000_000_000);
  }

  lemma {:induction false} SignificantDenotes(frac: nat)
    requires 0 < frac < ASX_PER_SX
    ensures Denotes(Significant(frac), frac)
  {
    EighteenDigits();
    ZeroPaddedValue(frac, 18);
    ZerosRestored(ZeroPadded(frac, 18));
    NotAllZeros(ZeroPadded(frac, 18));
  }

  lemma {:induction false} PrintedReadsBack(text: string, whole: nat, frac: nat, amount: nat)
    requires text == Printed(whole, frac) && frac < ASX_PER_SX && amount == whole * ASX_PER_SX + frac <= MAX_U128
    ensures ParseValue(text) == Ok(amount)
  {
    if frac == 0 {
      ParseWhole(text, whole, amount);
    } else {
      SignificantDenotes(frac);
      ParseDecimal(text, whole, Significant(frac), frac, amount);
    }
  }

  /** Parsing what was printed gives the amount back. */
  lemma {:induction false} FormatRoundTrip(x: nat)
    requires x <= MAX_U128
    ensures ParseValue(FormatSx(x)) == Ok(x)
  {
    var whole, frac := Split(x);
    PrintedReadsBack(FormatSx(x), whole, frac, x);
  }

  lemma {:induction false} NotAllZeros(s: string)
    requires AllDigits(s) && Value(s) > 0
    ensures WithoutTrailingZeros(s) != ""
  {
    if WithoutTrailingZeros(s) == "" {
      assert s == Zeros(|s|);
      ValueOfZeros(|s|);
    }
  }

  lemma {:induction false} FormatInjective(x: nat, y: nat)
    requires x <= MAX_U128 && y <= MAX_U128 && FormatSx(x) == FormatSx(y)
    ensures x == y
  {
    FormatRoundTrip(x);
    FormatRoundTrip(y);
  }

  /** Cutting the significant digits to nine and dropping zeros keeps the first nine digits. */
  lemma {:induction false} NineDigitsKept(s: string)
    requires |s| == 18
    ensures var shown := FirstNine(WithoutTrailingZeros(s));
      |shown| <= 9 && RightPadded(shown, 9) == s[..9] && RightPadded(shown, 18) == s[..9] + Zeros(9)
  {
  }

  lemma {:induction false} FirstNineValue(s: string)
    requires |s| == 18 && AllDigits(s)
    ensures AllDigits(s[..9] + Zeros(9)) && Value(s[..9] + Zeros(9)) == Value(s) - Value(s) % 1_000_000_000
    ensures Value(s) < 1_000_000_000 <==> Value(s[..9]) == 0
  {
    EighteenDigits();
    ValueConcat(s[..9], Zeros(9));
    ValueOfZeros(9);
    ValueConcat(s[..9], s[9..]);
    assert s[..9] + s[9..] == s;
    ValueBound(s[9..]);
    RoundDown(Value(s), Value(s[..9]), Value(s[9..]));
  }

  /** The nine digits shown, read as eighteen, are the fraction rounded down to nine places. */
  lemma {:induction false} NineDigitsShown(frac: nat)
    requires 0 < frac < ASX_PER_SX
    ensures var shown := FirstNine(Significant(frac));
      if frac < 1_000_000_000 then shown == "" else Denotes(shown, frac - frac % 1_000_000_000)
  {
    EighteenDigits();
    ZeroPaddedValue(frac, 18);
    var s := ZeroPadded(frac, 18);
    NineDigitsKept(s);
    FirstNineValue(s);
    ShownUnlessZero(s);
  }

  lemma {:induction false} ShownUnlessZero(s: string)
    requires |s| == 18 && AllDigits(s)
    ensures FirstNine(WithoutTrailingZeros(s)) == "" <==> Value(s[..9]) == 0
  {
    NineDigitsKept(s);
    var shown := FirstNine(WithoutTrailingZeros(s));
    if shown == "" {
      assert s[..9] == Zeros(9);
      ValueOfZeros(9);
    } else {
      var t := WithoutTrailingZeros(s);
      LastNotZero(if |t| < 9 then t else t[..9]);
      assert s[..9][|shown| - 1] == RightPadded(shown, 9)[|shown| - 1] == shown[|shown| - 1];
      ValuePositive(s[..9], |shown| - 1);
    }
  }

  lemma {:induction false} RoundDown(n: nat, high: nat, low: nat)
    requires n == high * 1_000_000_000 + low && low < 1_000_000_000
    ensures high * 1_000_000_000 == n - n % 1_000_000_000
    ensures n < 1_000_000_000 <==> high == 0
  {
  }

  lemma {:induction false} LastNotZero(s: string)
    requires WithoutTrailingZeros(s) != ""
    ensures var r := WithoutTrailingZeros(s); r[|r| - 1] != '0'
    decreases |s|
  {
    if s[|s| - 1] == '0' { LastNotZero(s[..|s| - 1]); }
  }

  lemma {:induction false} ValuePositive(s: string, i: nat)
    requires AllDigits(s) && i < |s| && s[i] != '0'
    ensures Value(s) > 0
    decreases |s|
  {
    if i < |s| - 1 { ValuePositive(s[..|s| - 1], i); }
  }

  /** The compact form of a small amount carries a unit that the parser does not know. */
  lemma {:induction false} SmallAmountsUnreadable(x: nat)
    ensures ParseValue(Digits(x) + " aSXI") == Err(InvalidAmount)
  {
    var s := Digits(x) + " aSXI";
    var numeric := Digits(x) + " a";
    UnitInTheWay(Digits(x), numeric);
    TrimKeeps(s);
    assert EndsWithUpper(s, "SXI");
    assert s[..|s| - 3] == numeric;
  }

  lemma {:induction false} UnitInTheWay(d: string, numeric: string)
    requires d != "" && AllDigits(d) && numeric == d + " a"
    ensures IsDigit(d[0]) && Trim(numeric) == numeric && ParseSx(numeric) == Err(InvalidAmount)
  {
    assert numeric[0] == d[0] && IsDigit(d[0]);
    TrimKeeps(numeric);
    assert !IsDigit(numeric[|numeric| - 1]);
    assert forall i :: 0 <= i < |numeric| ==> numeric[i] != '.';
    assert FindDot(numeric).None?;
  }

  lemma {:induction false} PrintedShortForm(whole: nat, frac: nat)
    requires frac < ASX_PER_SX
    ensures frac < 1_000_000_000 ==> PrintedShort(whole, frac) == Plain(whole)
    ensures frac >= 1_000_000_000 ==> PrintedShort(whole, frac) == Decimal(whole, FirstNine(Significant(frac)))
    ensures frac >= 1_000_000_000 ==> Denotes(FirstNine(Significant(frac)), frac - frac % 1_000_000_000)
  {
    if frac > 0 { NineDigitsShown(frac); }
  }

  lemma {:induction false} PrintedShortReadsBack(text: string, whole: nat, frac: nat, shown: nat, amount: nat)
    requires text == PrintedShort(whole, frac) && frac < ASX_PER_SX && shown == frac - frac % 1_000_000_000
    requires amount == whole * ASX_PER_SX + shown <= MAX_U128
    ensures ParseValue(text) == Ok(amount)
  {
    PrintedShortForm(whole, frac);
    if frac < 1_000_000_000 {
      ParseWhole(text, whole, amount);
    } else {
      ParseDecimal(text, whole, FirstNine(Significant(frac)), shown, amount);
    }
  }

  lemma {:induction false} LargeAmountsReadBack(x: nat, amount: nat)
    requires 1_000_000_000_000 <= x <= MAX_U128 && amount == x - x % 1_000_000_000
    ensures ParseValue(FormatSxCompact(x)) == Ok(amount)
  {
    var whole, frac := Split(x);
    LowDigits(whole, frac);
    PrintedShortReadsBack(FormatSxCompact(x), whole, frac, frac - frac % 1_000_000_000, amount);
  }

  /** Parsing the compact form gives the amount rounded down to nine decimals, exactly for zero and
      for amounts of at least a millionth of an SXI; anything smaller is not read back at all. */
  lemma {:induction false} CompactRoundTripExactly(x: nat)
    requires x <= MAX_U128
    ensures ParseValue(FormatSxCompact(x)) == Ok(x - x % 1_000_000_000) <==> x == 0 || x >= 1_000_000_000_000
    ensures ParseValue(FormatSxCompact(x)).Err? <==> 0 < x < 1_000_000_000_000
  {
    if x == 0 {
      assert Plain(0) == "0 SXI";
      ParseWhole(FormatSxCompact(x), 0, 0);
    } else if x < 1_000_000_000_000 {
      SmallAmountsUnreadable(x);
    } else {
      LargeAmountsReadBack(x, x - x % 1_000_000_000);
    }
  }
}
