/** Exact decimal amounts: parsing what the owner types into atomic units, and displaying them back. */
module ChainDecimal {
  import opened Basics

  const MAX_U64: nat := 18_446_744_073_709_551_615

  // ---------------------------------------------------------------- numerals

  predicate IsDigit(c: char) { '0' <= c <= '9' }
  predicate AllDigits(s: string) { forall i :: 0 <= i < |s| ==> IsDigit(s[i]) }

  function DigitOf(n: nat): char
    requires n < 10
  {
    '0' + n as char
  }

  function ValueOf(c: char): nat
    requires IsDigit(c)
  {
    (c - '0') as nat
  }

  /** `BigInt(s)` of a digit string. */
  function Value(s: string): nat
    requires AllDigits(s)
  {
    if s == "" then 0 else 10 * Value(s[..|s| - 1]) + ValueOf(s[|s| - 1])
  }

  /** `n.toString()`. */
  function Numeral(n: nat): (s: string)
    ensures AllDigits(s) && s != ""
  {
    if n < 10 then [DigitOf(n)] else Numeral(n / 10) + [DigitOf(n % 10)]
  }

  function Zeros(n: nat): (s: string)
    ensures |s| == n && AllDigits(s) && forall i :: 0 <= i < n ==> s[i] == '0'
  {
    seq(n, _ => '0')
  }

  function PadStart(s: string, n: nat): (r: string)
    ensures |r| == if |s| < n then n else |s|
    ensures AllDigits(s) ==> AllDigits(r)
  {
    if |s| < n then Zeros(n - |s|) + s else s
  }

  function PadEnd(s: string, n: nat): (r: string)
    ensures AllDigits(s) ==> AllDigits(r)
  {
    if |s| < n then s + Zeros(n - |s|) else s
  }

  function StripZeros(s: string): (r: string)
    ensures r <= s && (AllDigits(s) ==> AllDigits(r))
    ensures r == "" || r[|r| - 1] != '0'
    ensures forall i :: |r| <= i < |s| ==> s[i] == '0'
  {
    if s != "" && s[|s| - 1] == '0' then StripZeros(s[..|s| - 1]) else s
  }

  // ---------------------------------------------------------------- chain-policy.ts

  /** `0`, or digits without a leading zero. */
  predicate IsWhole(s: string) { s != "" && AllDigits(s) && (s[0] == '0' ==> s == "0") }

  /** Digits without a trailing zero. */
  predicate IsFraction(s: string) { s != "" && AllDigits(s) && s[|s| - 1] != '0' }

  /** Where the first dot is, or the length. */
  function DotAt(s: string): (k: nat)
    ensures k <= |s| && (k < |s| ==> s[k] == '.') && forall i :: 0 <= i < k ==> s[i] != '.'
  {
    if s == "" || s[0] == '.' then 0
    else
      var k := DotAt(s[1..]);
      assert forall i :: 0 < i < k + 1 ==> s[i] == s[1..][i - 1];
      k + 1
  }

  predicate IsDecimal(s: string) {
    var k := DotAt(s);
    IsWhole(s[..k]) && (k < |s| ==> IsFraction(s[k + 1..]))
  }

  function FractionOf(s: string): string {
    var k := DotAt(s);
    if k < |s| then s[k + 1..] else ""
  }

  /** `atomic`: a canonical numeral of an unsigned 64-bit amount. */
  predicate IsAtomic(s: string) { IsWhole(s) && |s| <= 20 && Value(s) <= MAX_U64 }

  /** `chainDecimal`. */
  function ParseDecimal(s: string, decimals: nat): Result<string> {
    if !IsDecimal(s) then Err(InvalidInput)
    else
      var whole, fraction := s[..DotAt(s)], FractionOf(s);
      if |whole| > 20 || |fraction| > decimals then Err(InvalidInput)
      else
        var amount := Value(whole + PadEnd(fraction, decimals));
        if amount == 0 || amount > MAX_U64 then Err(InvalidInput) else Ok(Numeral(amount))
  }

  /** `text.slice(-decimals)`: the last characters, but the whole text for zero. */
  function SliceLast(s: string, n: nat): string { if n == 0 || n >= |s| then s else s[|s| - n..] }

  /** `text.slice(0, -decimals)`: the text without them, but nothing for zero. */
  function SliceInit(s: string, n: nat): string { if n == 0 || n >= |s| then "" else s[..|s| - n] }

  /** `chainDisplay`. */
  function Display(s: string, decimals: nat): Result<string> {
    if !IsAtomic(s) then Err(StateCorrupt)
    else
      var text := PadStart(s, decimals + 1);
      var fraction := StripZeros(SliceLast(text, decimals));
      Ok(SliceInit(text, decimals) + if fraction == "" then "" else "." + fraction)
  }

  // ---------------------------------------------------------------- numerals and values

  lemma {:induction false} ValueOfNumeral(n: nat)
    ensures Value(Numeral(n)) == n
    decreases n
  {
    if n >= 10 {
      ValueOfNumeral(n / 10);
      assert Numeral(n)[..|Numeral(n)| - 1] == Numeral(n / 10);
    } else {
      assert Numeral(n)[..0] == "";
    }
  }

  lemma ValueOfZero()
    ensures Value("0") == 0
  {
    assert "0"[..0] == "";
  }

  lemma {:induction false} NumeralIsWhole(n: nat)
    ensures IsWhole(Numeral(n))
    decreases n
  {
    if n >= 10 {
      NumeralIsWhole(n / 10);
      assert Numeral(n)[0] == Numeral(n / 10)[0];
      ValueOfNumeral(n / 10);
      ValueOfZero();
    }
  }

  lemma {:induction false} ValuePositive(s: string)
    requires AllDigits(s) && s != "" && s[0] != '0'
    ensures Value(s) >= 1
    decreases |s|
  {
    if |s| > 1 { ValuePositive(s[..|s| - 1]); }
  }

  lemma {:induction false} NumeralOfValue(s: string)
    requires IsWhole(s)
    ensures Numeral(Value(s)) == s
    decreases |s|
  {
    var init, last := s[..|s| - 1], s[|s| - 1];
    assert s == init + [last];
    if init != "" {
      ValuePositive(init);
      NumeralOfValue(init);
      assert Value(s) / 10 == Value(init) && Value(s) % 10 == ValueOf(last);
    } else {
      assert Value(s) == ValueOf(last);
    }
  }

  /** A leading zero adds nothing. */
  lemma {:induction false} LeadingZero(s: string)
    requires AllDigits(s)
    ensures Value("0" + s) == Value(s)
    decreases |s|
  {
    if s == "" {
      assert "0" + s == "0" && "0"[..0] == "";
    } else {
      LeadingZero(s[..|s| - 1]);
      assert ("0" + s)[..|s|] == "0" + s[..|s| - 1];
    }
  }

  /** Any nonempty digit string is its value's numeral, padded to its own length. */
  lemma {:induction false} FixedWidth(s: string)
    requires AllDigits(s) && s != ""
    ensures PadStart(Numeral(Value(s)), |s|) == s && |Numeral(Value(s))| <= |s|
    decreases |s|
  {
    if s[0] != '0' || |s| == 1 {
      NumeralOfValue(s);
    } else {
      var rest := s[1..];
      assert s == "0" + rest;
      FixedWidth(rest);
      LeadingZero(rest);
      var short := Numeral(Value(s));
      assert Zeros(|s| - |short|) == "0" + Zeros(|rest| - |short|);
    }
  }

  lemma {:induction false} PadKeepsValue(s: string, n: nat)
    requires AllDigits(s)
    ensures Value(PadStart(s, n)) == Value(s)
    decreases n
  {
    if |s| < n {
      PadKeepsValue(s, n - 1);
      PadOneMore(s, n);
      LeadingZero(PadStart(s, n - 1));
    }
  }

  lemma PadOneMore(s: string, n: nat)
    requires |s| < n
    ensures PadStart(s, n) == "0" + PadStart(s, n - 1)
  {
    assert PadStart(s, n) == Zeros(n - |s|) + s;
    assert Zeros(n - |s|) == "0" + Zeros(n - 1 - |s|);
    if |s| < n - 1 {
      assert PadStart(s, n - 1) == Zeros(n - 1 - |s|) + s;
      assert ("0" + Zeros(n - 1 - |s|)) + s == "0" + (Zeros(n - 1 - |s|) + s);
    } else {
      assert PadStart(s, n - 1) == s && Zeros(n - |s|) == "0";
    }
  }

  // ---------------------------------------------------------------- padding and stripping

  lemma StripUndoesPad(f: string, n: nat)
    requires |f| <= n && (f == "" || f[|f| - 1] != '0')
    ensures |PadEnd(f, n)| == n && StripZeros(PadEnd(f, n)) == f
  {
    var padded := PadEnd(f, n);
    assert f == "" || padded[|f| - 1] != '0';
    assert forall i :: |f| <= i < n ==> padded[i] == '0';
    assert StripZeros(padded) == padded[..|f|];
  }

  lemma {:induction false} PadUndoesStrip(s: string)
    ensures PadEnd(StripZeros(s), |s|) == s
    decreases |s|
  {
    if s != "" && s[|s| - 1] == '0' {
      var init := s[..|s| - 1];
      PadUndoesStrip(init);
      assert Zeros(|s| - |StripZeros(s)|) == Zeros(|init| - |StripZeros(init)|) + "0";
      assert s == init + "0";
    }
  }

  /** A decimal is its whole part, and a dot and its fraction if there is one. */
  lemma DecimalParts(whole: string, fraction: string)
    requires IsWhole(whole) && (fraction == "" || IsFraction(fraction))
    ensures var s := whole + if fraction == "" then "" else "." + fraction;
      IsDecimal(s) && s[..DotAt(s)] == whole && FractionOf(s) == fraction
  {
    var s := whole + if fraction == "" then "" else "." + fraction;
    if fraction == "" {
      assert s == whole;
    } else {
      assert s[|whole|] == '.' && forall i :: 0 <= i < |whole| ==> s[i] == whole[i];
    }
  }

  // ---------------------------------------------------------------- the two directions

  lemma AtomicNumeral(n: nat)
    requires n <= MAX_U64
    ensures IsAtomic(Numeral(n)) && |Numeral(n)| <= 20
  {
    NumeralIsWhole(n);
    ValueOfNumeral(n);
    assert Power(20) == 100_000_000_000_000_000_000 by {
      assert Power(4) == 10_000 && Power(8) == 100_000_000;
      assert Power(12) == 1_000_000_000_000 && Power(16) == 10_000_000_000_000_000;
    }
    NumeralLength(n, 20);
  }

  function Power(k: nat): nat { if k == 0 then 1 else 10 * Power(k - 1) }

  lemma {:induction false} NumeralLength(n: nat, k: nat)
    requires k >= 1 && n < Power(k)
    ensures |Numeral(n)| <= k
    decreases k
  {
    if n >= 10 { NumeralLength(n / 10, k - 1); }
  }

  lemma SliceParts(whole: string, rest: string)
    requires whole != "" && rest != ""
    ensures SliceLast(whole + rest, |rest|) == rest && SliceInit(whole + rest, |rest|) == whole
  {
  }

  lemma DisplayOf(s: string, decimals: nat, whole: string, rest: string)
    requires IsAtomic(s) && SliceInit(PadStart(s, decimals + 1), decimals) == whole
      && SliceLast(PadStart(s, decimals + 1), decimals) == rest
    ensures Display(s, decimals) == Ok(whole + if StripZeros(rest) == "" then "" else "." + StripZeros(rest))
  {
  }

  lemma DisplayParts(s: string, decimals: nat, whole: string, fraction: string)
    requires IsAtomic(s) && decimals >= 1 && |fraction| <= decimals && whole != ""
      && (fraction == "" || IsFraction(fraction))
    requires PadStart(s, decimals + 1) == whole + PadEnd(fraction, decimals)
    ensures Display(s, decimals) == Ok(whole + if fraction == "" then "" else "." + fraction)
  {
    var rest := PadEnd(fraction, decimals);
    StripUndoesPad(fraction, decimals);
    SliceParts(whole, rest);
    DisplayOf(s, decimals, whole, rest);
  }

  /** The padded numeral of an accepted text's amount is its digits without the dot. */
  lemma PaddedAmount(whole: string, fraction: string, decimals: nat)
    requires IsWhole(whole) && AllDigits(fraction) && |fraction| <= decimals
    ensures PadStart(Numeral(Value(whole + PadEnd(fraction, decimals))), decimals + 1) ==
      whole + PadEnd(fraction, decimals)
  {
    var digits := whole + PadEnd(fraction, decimals);
    assert |PadEnd(fraction, decimals)| == decimals;
    if whole == "0" { FixedWidth(digits); } else { NumeralOfValue(digits); }
  }

  function Dotted(whole: string, fraction: string): string { whole + if fraction == "" then "" else "." + fraction }

  lemma ParsedParts(s: string, decimals: nat) returns (whole: string, fraction: string)
    requires ParseDecimal(s, decimals).Ok?
    ensures IsWhole(whole) && (fraction == "" || IsFraction(fraction)) && |fraction| <= decimals
      && s == Dotted(whole, fraction)
    ensures Value(whole + PadEnd(fraction, decimals)) <= MAX_U64
    ensures ParseDecimal(s, decimals) == Ok(Numeral(Value(whole + PadEnd(fraction, decimals))))
  {
    whole, fraction := s[..DotAt(s)], FractionOf(s);
  }

  lemma ParseOfParts(whole: string, fraction: string, decimals: nat)
    requires IsWhole(whole) && (fraction == "" || IsFraction(fraction)) && |whole| <= 20 && |fraction| <= decimals
    requires 1 <= Value(whole + PadEnd(fraction, decimals)) <= MAX_U64
    ensures ParseDecimal(Dotted(whole, fraction), decimals) == Ok(Numeral(Value(whole + PadEnd(fraction, decimals))))
  {
    DecimalParts(whole, fraction);
  }

  /** With at least one decimal, displaying what was parsed gives back the very text the owner typed. */
  lemma DisplayOfParse(s: string, decimals: nat)
    requires ParseDecimal(s, decimals).Ok? && decimals >= 1
    ensures Display(ParseDecimal(s, decimals).value, decimals) == Ok(s)
  {
    var whole, fraction := ParsedParts(s, decimals);
    AtomicNumeral(Value(whole + PadEnd(fraction, decimals)));
    PaddedAmount(whole, fraction, decimals);
    DisplayParts(Numeral(Value(whole + PadEnd(fraction, decimals))), decimals, whole, fraction);
  }

  /** Without decimals the display of any amount is not what was typed: the digits land behind a dot. */
  lemma NoDecimalsNeverRoundTrip(s: string)
    requires ParseDecimal(s, 0).Ok?
    ensures Display(ParseDecimal(s, 0).value, 0) != Ok(s)
  {
    var r := ParseDecimal(s, 0).value;
    var whole, part := ParsedParts(s, 0);
    AtomicNumeral(Value(whole + PadEnd(part, 0)));
    var fraction := StripZeros(r);
    assert Display(r, 0) == Ok("" + if fraction == "" then "" else "." + fraction);
  }

  /** Parsing and display undo each other on what the owner types exactly when the asset has decimals. */
  lemma TypedTextRoundTrips(s: string, decimals: nat)
    requires ParseDecimal(s, decimals).Ok?
    ensures Display(ParseDecimal(s, decimals).value, decimals) == Ok(s) <==> decimals >= 1
  {
    if decimals >= 1 { DisplayOfParse(s, decimals); } else { NoDecimalsNeverRoundTrip(s); }
  }

  /** The whole part of a displayed amount is canonical. */
  lemma WholeOfNumeral(n: nat, decimals: nat)
    requires decimals >= 1
    ensures var text := PadStart(Numeral(n), decimals + 1);
      IsWhole(text[..|text| - decimals])
        && |text[..|text| - decimals]| <= (if |Numeral(n)| > 1 then |Numeral(n)| else 1)
  {
    NumeralIsWhole(n);
    var s, text := Numeral(n), PadStart(Numeral(n), decimals + 1);
    var whole := text[..|text| - decimals];
    if |s| <= decimals + 1 { assert |whole| == 1 && whole == [text[0]]; }
    else { assert whole[0] == s[0]; }
  }

  /** A padded numeral is a canonical whole part followed by a padded fraction. */
  lemma NumeralParts(n: nat, decimals: nat) returns (whole: string, fraction: string)
    requires n <= MAX_U64 && decimals >= 1
    ensures IsWhole(whole) && (fraction == "" || IsFraction(fraction)) && |whole| <= 20 && |fraction| <= decimals
    ensures PadStart(Numeral(n), decimals + 1) == whole + PadEnd(fraction, decimals)
  {
    var text := PadStart(Numeral(n), decimals + 1);
    var rest := text[|text| - decimals..];
    whole, fraction := text[..|text| - decimals], StripZeros(rest);
    AtomicNumeral(n);
    WholeOfNumeral(n, decimals);
    PadUndoesStrip(rest);
    assert text == whole + rest;
  }

  /** With at least one decimal, parsing a displayed amount gives the amount, for every amount the asset can hold. */
  lemma ParseOfDisplay(n: nat, decimals: nat)
    requires 1 <= n <= MAX_U64 && decimals >= 1
    ensures Display(Numeral(n), decimals).Ok?
    ensures ParseDecimal(Display(Numeral(n), decimals).value, decimals) == Ok(Numeral(n))
  {
    var whole, fraction := NumeralParts(n, decimals);
    AtomicNumeral(n);
    DisplayParts(Numeral(n), decimals, whole, fraction);
    PadKeepsValue(Numeral(n), decimals + 1);
    ValueOfNumeral(n);
    ParseOfParts(whole, fraction, decimals);
  }

  // ---------------------------------------------------------------- which amount a text names

  /** Each zero after a numeral is a factor of ten. */
  lemma {:induction false} ZerosScale(s: string, k: nat)
    requires AllDigits(s)
    ensures AllDigits(s + Zeros(k)) && Value(s + Zeros(k)) == Value(s) * Power(k)
    decreases k
  {
    if k == 0 {
      assert s + Zeros(0) == s;
    } else {
      var t := s + Zeros(k);
      assert t == s + Zeros(k - 1) + "0";
      ZerosScale(s, k - 1);
      ZeroScales(s + Zeros(k - 1), t);
      TenTimes(Value(s), Power(k - 1));
    }
  }

  lemma ZeroScales(s: string, t: string)
    requires AllDigits(s) && t == s + "0"
    ensures AllDigits(t) && Value(t) == 10 * Value(s)
  {
    assert t[..|t| - 1] == s;
  }

  lemma TenTimes(a: nat, b: nat)
    ensures 10 * (a * b) == a * (10 * b)
  {
  }

  /** Decimals shift the point: a typed amount is its digits without the dot, times ten for each decimal not typed; it
      is accepted exactly when the point leaves at most 20 digits before it and at most the asset's decimals after it,
      and the amount is from 1 to 2^64 - 1. */
  lemma ParseMeaning(whole: string, fraction: string, decimals: nat)
    requires IsWhole(whole) && (fraction == "" || IsFraction(fraction))
    ensures var amount := Value(whole + fraction) * Power(if |fraction| <= decimals then decimals - |fraction| else 0);
      && (ParseDecimal(Dotted(whole, fraction), decimals).Ok? <==>
            |whole| <= 20 && |fraction| <= decimals && 1 <= amount <= 0xFFFF_FFFF_FFFF_FFFF)
      && (ParseDecimal(Dotted(whole, fraction), decimals).Ok? ==>
            ParseDecimal(Dotted(whole, fraction), decimals) == Ok(Numeral(amount)))
  {
    DecimalParts(whole, fraction);
    if |fraction| <= decimals { PaddedScales(whole, fraction, decimals); }
  }

  lemma PaddedScales(whole: string, fraction: string, decimals: nat)
    requires AllDigits(whole) && AllDigits(fraction) && |fraction| <= decimals
    ensures Value(whole + PadEnd(fraction, decimals)) == Value(whole + fraction) * Power(decimals - |fraction|)
  {
    var k := decimals - |fraction|;
    ZerosScale(whole + fraction, k);
    assert whole + PadEnd(fraction, decimals) == whole + fraction + Zeros(k) by {
      if k == 0 { assert Zeros(k) == ""; }
    }
  }

  /** Nothing else is accepted. */
  lemma OnlyDotted(s: string, decimals: nat)
    ensures ParseDecimal(s, decimals).Ok? ==>
      exists whole, fraction ::
        s == Dotted(whole, fraction) && IsWhole(whole) && (fraction == "" || IsFraction(fraction))
  {
    if ParseDecimal(s, decimals).Ok? { var whole, fraction := ParsedParts(s, decimals); }
  }

  /** An amount is displayed exactly when it is a canonical numeral of at most 2^64 - 1. */
  lemma DisplayMeaning(s: string, decimals: nat)
    ensures Display(s, decimals).Ok? <==> exists n: nat :: n <= 0xFFFF_FFFF_FFFF_FFFF && s == Numeral(n)
  {
    if IsAtomic(s) { NumeralOfValue(s); }
    forall n: nat | n <= 0xFFFF_FFFF_FFFF_FFFF && s == Numeral(n) ensures IsAtomic(s) { AtomicNumeral(n); }
  }
}
