/** When a direct transfer's fee is complete, when it is not and why, over the numbers its receipt reports. */
module FeeMeaning {
  import opened Basics
  import opened ActualFee

  // ---------------------------------------------------------------- the numbers a node writes

  /** A quantity in hexadecimal, in small or capital digits, without leading zeros. */
  function HexText(n: nat, digits: string): (s: string)
    requires |digits| == 16
    ensures s != ""
  {
    if n < 16 then [digits[n]] else HexText(n / 16, digits) + [digits[n % 16]]
  }

  const SMALL_DIGITS := "0123456789abcdef"
  const CAPITAL_DIGITS := "0123456789ABCDEF"

  lemma DigitReads(n: nat, digits: string)
    requires n < 16 && digits in {SMALL_DIGITS, CAPITAL_DIGITS}
    ensures IsHexDigit(digits[n]) && HexValue(digits[n]) == n
  {
  }

  function Pow16(k: nat): nat { if k == 0 then 1 else 16 * Pow16(k - 1) }

  lemma {:induction false} HexReads(n: nat, digits: string)
    requires digits in {SMALL_DIGITS, CAPITAL_DIGITS}
    ensures forall i :: 0 <= i < |HexText(n, digits)| ==> IsHexDigit(HexText(n, digits)[i])
    ensures HexDigits(HexText(n, digits)) == n
    ensures forall k: nat :: 0 < k && n < Pow16(k) ==> |HexText(n, digits)| <= k
    decreases n
  {
    var s := HexText(n, digits);
    DigitReads(n % 16, digits);
    if n >= 16 {
      HexReads(n / 16, digits);
      assert s[..|s| - 1] == HexText(n / 16, digits);
      forall k: nat | 0 < k && n < Pow16(k) ensures |s| <= k {
        assert Pow16(k) == 16 * Pow16(k - 1) && Pow16(0) == 1;
        Below16(n, Pow16(k - 1));
      }
    } else {
      assert s[..0] == "" && n % 16 == n;
    }
  }

  lemma Below16(n: nat, m: nat)
    requires n < 16 * m
    ensures n / 16 < m
  {
  }

  /** A quantity of at most 32 bytes written with its prefix is read back. */
  lemma QuantityReadsBack(fields: Fields, f: Field, n: nat, digits: string)
    requires digits in {SMALL_DIGITS, CAPITAL_DIGITS} && n < Pow16(64)
    requires f in fields && fields[f] == "0x" + HexText(n, digits)
    ensures IsQuantity(fields[f]) && ValueOf(fields, f) == Some(n)
  {
    HexReads(n, digits);
    var s := fields[f];
    assert s[2..] == HexText(n, digits) && s[..2] == "0x";
    forall i | 2 <= i < |s| ensures IsHexDigit(s[i]) { assert s[i] == HexText(n, digits)[i - 2]; }
  }

  /** A field is read exactly when it is `0x` and one to 64 hexadecimal digits. */
  lemma QuantityMeaning(s: string)
    ensures IsQuantity(s) <==>
      3 <= |s| <= 66 && s[0] == '0' && s[1] == 'x' && forall i :: 2 <= i < |s| ==> s[i] in "0123456789abcdefABCDEF"
  {
    if 3 <= |s| { assert s[..2] == [s[0], s[1]]; }
    forall c: char ensures IsHexDigit(c) <==> c in "0123456789abcdefABCDEF" { HexAlphabet(c); }
  }

  lemma HexAlphabet(c: char)
    ensures IsHexDigit(c) <==> c in "0123456789abcdefABCDEF"
  {
    var digits := "0123456789abcdefABCDEF";
    if '0' <= c <= '9' { assert c == digits[(c - '0') as int]; }
    if 'a' <= c <= 'f' { assert c == digits[10 + (c - 'a') as int]; }
    if 'A' <= c <= 'F' { assert c == digits[16 + (c - 'A') as int]; }
  }

  /** A receipt field is kept word for word when it is a text of at most 66 characters; anything else kept can never be
      read. */
  lemma KeptOrUnreadable(a: Answer)
    ensures a.Text? && |a.text| <= 66 ==> StoredText(a) == a.text
    ensures !a.Text? || |a.text| > 66 ==> !IsQuantity(StoredText(a))
  {
    assert "invalid"[..2][0] == 'i' && "0x"[0] == '0';
  }

  // ---------------------------------------------------------------- complete or not

  /** Every field kept is a quantity, and gas and price are among them and within what was signed. */
  predicate Readable(input: Input) { forall f | f in input.fields :: IsQuantity(input.fields[f]) }

  predicate Priced(input: Input) {
    && Readable(input) && ValueOf(input.fields, GasUsed).Some? && ValueOf(input.fields, EffectiveGasPrice).Some?
    && ValueOf(input.fields, GasUsed).value <= input.gasLimit
    && ValueOf(input.fields, EffectiveGasPrice).value <= input.maxFeePerGas
  }

  /** The receipt claims a blob charge: a nonzero blob gas, unless it is an OP-stack footprint, which has no blob price
      and which only the current rule knows. */
  predicate BlobCharge(input: Input, model: FeeModel, earlier: bool) {
    && OrZero(ValueOf(input.fields, BlobGasUsed)) > 0
    && (earlier || model != OpStack || OrZero(ValueOf(input.fields, BlobGasPrice)) > 0)
  }

  /** The operator fee is consistent: both parameters or neither, within their widths, and any reported fee is the one
      they give. */
  predicate OperatorAgrees(fields: Fields, gasUsed: nat) {
    var scalar, constant := ValueOf(fields, OperatorFeeScalar), ValueOf(fields, OperatorFeeConstant);
    && (scalar.Some? <==> constant.Some?)
    && (scalar.Some? ==>
          && scalar.value < 0x1_0000_0000 && constant.value < 0x1_0000_0000_0000_0000
          && (ValueOf(fields, OperatorFee).Some? ==>
                ValueOf(fields, OperatorFee).value == gasUsed * scalar.value * 100 + constant.value))
  }

  predicate NoOtherCharge(fields: Fields) {
    OrZero(ValueOf(fields, L1Fee)) == OrZero(ValueOf(fields, OperatorFee)) == OrZero(ValueOf(fields, OperatorFeeScalar))
      == OrZero(ValueOf(fields, OperatorFeeConstant)) == 0
  }

  lemma OtherCharges(fields: Fields)
    ensures (exists f | f in OP_STACK_FIELDS :: OrZero(ValueOf(fields, f)) != 0) <==> !NoOtherCharge(fields)
  {
    assert OP_STACK_FIELDS[0] == L1Fee && OP_STACK_FIELDS[1] == OperatorFee;
    assert OP_STACK_FIELDS[2] == OperatorFeeScalar && OP_STACK_FIELDS[3] == OperatorFeeConstant;
  }

  lemma OpStackMeaning(fields: Fields, gasUsed: nat, execution: nat)
    ensures var out := OpStackCharge(fields, gasUsed, execution);
      && (out.Complete? <==> ValueOf(fields, L1Fee).Some? && OperatorAgrees(fields, gasUsed))
      && (out == Incomplete(L1Unavailable) <==> ValueOf(fields, L1Fee).None?)
      && (out == Incomplete(OperatorInconsistent) <==>
            ValueOf(fields, L1Fee).Some? && !OperatorAgrees(fields, gasUsed))
      && (out.Complete? ==>
            && out.amounts.l1 == ValueOf(fields, L1Fee)
            && out.amounts.operator == Some(OperatorPaid(fields, gasUsed)))
  {
  }

  /** The operator fee: by its parameters where they are given, otherwise as reported, otherwise none. */
  function OperatorPaid(fields: Fields, gasUsed: nat): nat {
    if ValueOf(fields, OperatorFeeScalar).Some? then
      gasUsed * ValueOf(fields, OperatorFeeScalar).value * 100 + OrZero(ValueOf(fields, OperatorFeeConstant))
    else OrZero(ValueOf(fields, OperatorFee))
  }

  /** Under either rule: the fee is complete if and only if it is priced, claims no blob charge, and names either the
      OP-stack parts consistently or no other part; and each refusal has exactly its own cause, in this order. */
  lemma FeeMeaning(input: Input, model: FeeModel, earlier: bool)
    ensures var out, fields := Charge(input, model, earlier), input.fields;
      var clear := Priced(input) && !BlobCharge(input, model, earlier);
      && (out == Incomplete(Malformed) <==> !Readable(input))
      && (out == Incomplete(ExecutionUnavailable) <==>
            Readable(input) && (ValueOf(fields, GasUsed).None? || ValueOf(fields, EffectiveGasPrice).None?))
      && (out == Incomplete(ContradictsTransaction) <==>
            && Readable(input) && ValueOf(fields, GasUsed).Some? && ValueOf(fields, EffectiveGasPrice).Some?
            && (ValueOf(fields, GasUsed).value > input.gasLimit
                || ValueOf(fields, EffectiveGasPrice).value > input.maxFeePerGas))
      && (out == Incomplete(BlobUnmodeled) <==> Priced(input) && BlobCharge(input, model, earlier))
      && (out == Incomplete(ComponentUnmodeled) <==> clear && model != OpStack && !NoOtherCharge(fields))
      && (out == Incomplete(L1Unavailable) <==> clear && model == OpStack && ValueOf(fields, L1Fee).None?)
      && (out == Incomplete(OperatorInconsistent) <==>
            && clear && model == OpStack && ValueOf(fields, L1Fee).Some?
            && !OperatorAgrees(fields, ValueOf(fields, GasUsed).value))
      && (out.Complete? <==>
            && clear && (model != OpStack ==> NoOtherCharge(fields))
            && (model == OpStack ==>
                  ValueOf(fields, L1Fee).Some? && OperatorAgrees(fields, ValueOf(fields, GasUsed).value)))
      && (out.Complete? && model == OpStack ==>
            out.amounts.operator == Some(OperatorPaid(fields, ValueOf(fields, GasUsed).value)))
  {
    OtherCharges(input.fields);
    if Priced(input) {
      OpStackMeaning(input.fields, ValueOf(input.fields, GasUsed).value,
                     Product(ValueOf(input.fields, GasUsed).value, ValueOf(input.fields, EffectiveGasPrice).value));
    }
  }

  /** A stored fee is accepted if and only if it names a lower-case transaction hash and short fields, and says what
      they derive now or what they derived under the earlier rule. */
  lemma AcceptedIff(fee: Fee)
    ensures Validate(fee).Ok? <==>
      && |fee.input.transaction| == 66 && fee.input.transaction[0] == '0' && fee.input.transaction[1] == 'x'
      && (forall i :: 2 <= i < 66 ==> fee.input.transaction[i] in "0123456789abcdef")
      && (forall f | f in fee.input.fields :: |fee.input.fields[f]| <= 66)
      && exists earlier :: fee.outcome == Charge(fee.input, fee.model, earlier)
    ensures Validate(fee).Ok? ==> Validate(fee).value == fee.(outcome := Charge(fee.input, fee.model, false))
  {
    var t := fee.input.transaction;
    if |t| == 66 { assert t[..2] == [t[0], t[1]]; }
    forall c: char ensures '0' <= c <= '9' || 'a' <= c <= 'f' <==> c in "0123456789abcdef" { SmallAlphabet(c); }
    var current, old' := Charge(fee.input, fee.model, false), Charge(fee.input, fee.model, true);
    assert fee == Derive(fee.input, fee.model, false) <==> fee.outcome == current;
    assert fee == Derive(fee.input, fee.model, true) <==> fee.outcome == old';
  }

  lemma SmallAlphabet(c: char)
    ensures '0' <= c <= '9' || 'a' <= c <= 'f' <==> c in "0123456789abcdef"
  {
    var digits := "0123456789abcdef";
    if '0' <= c <= '9' { assert c == digits[(c - '0') as int]; }
    if 'a' <= c <= 'f' { assert c == digits[10 + (c - 'a') as int]; }
  }
}
