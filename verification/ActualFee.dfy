/** What a direct EVM transfer actually paid, derived from its own receipt, under the current blob rule and an earlier
    one. */
module ActualFee {
  import opened Basics

  datatype FeeModel = Eip1559 | OpStack | ArbitrumInclusive | MonadGasLimit

  datatype Field =
    | GasUsed | EffectiveGasPrice | L1Fee | OperatorFeeScalar | OperatorFeeConstant | OperatorFee
    | BlobGasUsed | BlobGasPrice

  const FIELDS: seq<Field> :=
    [GasUsed, EffectiveGasPrice, L1Fee, OperatorFeeScalar, OperatorFeeConstant, OperatorFee, BlobGasUsed, BlobGasPrice]

  /** The components only an OP-stack charge has. */
  const OP_STACK_FIELDS: seq<Field> := [L1Fee, OperatorFee, OperatorFeeScalar, OperatorFeeConstant]

  /** A node's answer for one receipt field. */
  datatype Answer = Absent | Text(text: string) | NotText

  type Fields = map<Field, string>

  datatype Input = Input(chainId: int, transaction: string, block: nat, gasLimit: nat, maxFeePerGas: nat,
                         fields: Fields)

  datatype Reason =
    | Malformed | ExecutionUnavailable | ContradictsTransaction | BlobUnmodeled | ComponentUnmodeled
    | L1Unavailable | OperatorInconsistent

  datatype Amounts = Amounts(billed: nat, execution: nat, l1: Option<nat>, operator: Option<nat>, total: nat)

  /** A stored observation: its inputs, and either every amount or the reason one is missing. */
  datatype Fee = Fee(input: Input, model: FeeModel, outcome: Outcome)
  datatype Outcome = Complete(amounts: Amounts) | Incomplete(reason: Reason)

  const MAX_SCALAR: nat := 0xffff_ffff
  const MAX_CONSTANT: nat := 0xffff_ffff_ffff_ffff

  // ---------------------------------------------------------------- reading the receipt

  function StoredText(a: Answer): string { if a.Text? && |a.text| <= 66 then a.text else "invalid" }

  /** `readEvmReceiptFeeFields`: absent fields stay absent, and whatever is not a short text is kept as "invalid". */
  method ReadReceiptFields(receipt: map<Field, Answer>) returns (fields: Fields)
    ensures fields == map f | f in receipt && receipt[f] != Absent :: StoredText(receipt[f])
    ensures forall f | f in fields :: |fields[f]| <= 66
  {
    fields := map[];
    for i := 0 to |FIELDS|
      invariant fields == map f | f in receipt && f in FIELDS[..i] && receipt[f] != Absent :: StoredText(receipt[f])
    {
      var name := FIELDS[i];
      assert FIELDS[..i + 1] == FIELDS[..i] + [name];
      if name in receipt && receipt[name] != Absent {
        fields := fields[name := StoredText(receipt[name])];
      }
    }
    forall f: Field ensures f in FIELDS[..|FIELDS|] { AllFields(f); }
  }

  lemma AllFields(f: Field)
    ensures f in FIELDS && FIELDS[..|FIELDS|] == FIELDS
  {
    match f
    case GasUsed => assert FIELDS[0] == f;
    case EffectiveGasPrice => assert FIELDS[1] == f;
    case L1Fee => assert FIELDS[2] == f;
    case OperatorFeeScalar => assert FIELDS[3] == f;
    case OperatorFeeConstant => assert FIELDS[4] == f;
    case OperatorFee => assert FIELDS[5] == f;
    case BlobGasUsed => assert FIELDS[6] == f;
    case BlobGasPrice => assert FIELDS[7] == f;
  }

  predicate IsHexDigit(c: char) { '0' <= c <= '9' || 'a' <= c <= 'f' || 'A' <= c <= 'F' }

  function HexValue(c: char): nat
    requires IsHexDigit(c)
  {
    if c <= '9' then (c - '0') as nat else if c <= 'F' then 10 + (c - 'A') as nat else 10 + (c - 'a') as nat
  }

  function HexDigits(s: string): nat
    requires forall i :: 0 <= i < |s| ==> IsHexDigit(s[i])
  {
    if s == "" then 0 else 16 * HexDigits(s[..|s| - 1]) + HexValue(s[|s| - 1])
  }

  predicate IsQuantity(s: string) { 3 <= |s| <= 66 && s[..2] == "0x" && forall i :: 2 <= i < |s| ==> IsHexDigit(s[i]) }

  /** A well-formed field's value; an absent one has none. */
  function ValueOf(fields: Fields, f: Field): Option<nat> {
    if f in fields && IsQuantity(fields[f]) then Some(HexDigits(fields[f][2..])) else None
  }

  function OrZero(n: Option<nat>): nat { if n.Some? then n.value else 0 }

  function Product(a: nat, b: nat): nat { a * b }

  // ---------------------------------------------------------------- derive

  /** OP stack: execution, the receipt's own L1 fee, and an operator fee that agrees with its parameters when they are
      given. */
  function OpStackCharge(fields: Fields, gasUsed: nat, execution: nat): Outcome {
    var l1, scalar, constant :=
      ValueOf(fields, L1Fee), ValueOf(fields, OperatorFeeScalar), ValueOf(fields, OperatorFeeConstant);
    if l1.None? then Incomplete(L1Unavailable)
    else if scalar.Some? != constant.Some? || OrZero(scalar) > MAX_SCALAR || OrZero(constant) > MAX_CONSTANT then
      Incomplete(OperatorInconsistent)
    else
      var derived := Product(gasUsed, OrZero(scalar)) * 100 + OrZero(constant);
      var reported := ValueOf(fields, OperatorFee);
      var operator := if reported.Some? then reported.value else derived;
      if scalar.Some? && operator != derived then Incomplete(OperatorInconsistent)
      else Complete(Amounts(gasUsed, execution, l1, Some(operator), execution + l1.value + operator))
  }

  /** The charge rule; `blobAlwaysCharged` is the earlier reading of a DA footprint as a blob charge. */
  function Charge(input: Input, model: FeeModel, blobAlwaysCharged: bool): Outcome {
    var fields := input.fields;
    var gasUsed, price := ValueOf(fields, GasUsed), ValueOf(fields, EffectiveGasPrice);
    if exists f | f in fields :: !IsQuantity(fields[f]) then Incomplete(Malformed)
    else if gasUsed.None? || price.None? then Incomplete(ExecutionUnavailable)
    else if gasUsed.value > input.gasLimit || price.value > input.maxFeePerGas then Incomplete(ContradictsTransaction)
    else
      var footprint := !blobAlwaysCharged && model == OpStack && OrZero(ValueOf(fields, BlobGasPrice)) == 0;
      var billed := if model == MonadGasLimit then input.gasLimit else gasUsed.value;
      var execution := Product(billed, price.value);
      if OrZero(ValueOf(fields, BlobGasUsed)) != 0 && !footprint then Incomplete(BlobUnmodeled)
      else if model == OpStack then OpStackCharge(fields, gasUsed.value, execution)
      else if exists f | f in OP_STACK_FIELDS :: OrZero(ValueOf(fields, f)) != 0 then Incomplete(ComponentUnmodeled)
      else Complete(Amounts(billed, execution, None, None, execution))
  }

  function Derive(input: Input, model: FeeModel, blobAlwaysCharged: bool): Fee {
    Fee(input, model, Charge(input, model, blobAlwaysCharged))
  }

  /** The schema checks on a stored observation's own inputs. */
  predicate WellFormed(input: Input) {
    && |input.transaction| == 66 && input.transaction[..2] == "0x"
    && (forall i :: 2 <= i < 66 ==> '0' <= input.transaction[i] <= '9' || 'a' <= input.transaction[i] <= 'f')
    && (forall f | f in input.fields :: |input.fields[f]| <= 66)
  }

  /** `validateEvmActualFee`: what the fields derive now, or what the earlier rule derived from them; the answer is the
      current reading. */
  function Validate(fee: Fee): Result<Fee> {
    if !WellFormed(fee.input) then Err(StateCorrupt)
    else
      var current, earlier := Derive(fee.input, fee.model, false), Derive(fee.input, fee.model, true);
      if current != fee && earlier != fee then Err(StateCorrupt) else Ok(current)
  }

  // ---------------------------------------------------------------- properties

  /** What the earlier rule completed, the current rule completes with the same amounts; they differ only where the
      earlier rule called an OP-stack DA footprint an unmodeled blob charge. */
  lemma EarlierRuleAgrees(input: Input, model: FeeModel)
    ensures Charge(input, model, true) == Charge(input, model, false)
      || (Charge(input, model, true) == Incomplete(BlobUnmodeled) && model == OpStack)
    ensures Charge(input, model, true).Complete? ==> Derive(input, model, true) == Derive(input, model, false)
  {
  }

  /** A complete fee adds up, and its execution part is within what the transaction authorised. */
  lemma CompleteFeeAddsUp(input: Input, model: FeeModel, blobAlwaysCharged: bool)
    requires Charge(input, model, blobAlwaysCharged).Complete?
    ensures var a := Charge(input, model, blobAlwaysCharged).amounts;
      && a.total == a.execution + OrZero(a.l1) + OrZero(a.operator)
      && Some(a.billed) == (if model == MonadGasLimit then Some(input.gasLimit) else ValueOf(input.fields, GasUsed))
      && ValueOf(input.fields, EffectiveGasPrice).Some?
      && a.execution == a.billed * ValueOf(input.fields, EffectiveGasPrice).value
      && a.billed <= input.gasLimit && a.execution <= input.gasLimit * input.maxFeePerGas
      && (a.l1.Some? <==> model == OpStack) && (a.operator.Some? <==> model == OpStack)
      && (model == OpStack ==> a.l1 == ValueOf(input.fields, L1Fee))
      && (model == OpStack && ValueOf(input.fields, OperatorFeeScalar).Some? ==>
            a.operator.value ==
              a.billed * ValueOf(input.fields, OperatorFeeScalar).value * 100 +
                OrZero(ValueOf(input.fields, OperatorFeeConstant)))
  {
    var a := Charge(input, model, blobAlwaysCharged).amounts;
    var price := ValueOf(input.fields, EffectiveGasPrice).value;
    assert a.execution == a.billed * price;
    ProductWithin(a.billed, price, input.gasLimit, input.maxFeePerGas);
  }

  lemma ProductWithin(a: nat, b: nat, c: nat, d: nat)
    requires a <= c && b <= d
    ensures a * b <= c * d
  {
    assert a * b <= c * b <= c * d;
  }

  /** A fee just derived validates to itself, and validating twice changes nothing. */
  lemma ValidateIsIdempotent(fee: Fee)
    requires Validate(fee).Ok?
    ensures Validate(Validate(fee).value) == Validate(fee)
    ensures fee.outcome.Complete? ==> Validate(fee) == Ok(fee)
  {
    EarlierRuleAgrees(fee.input, fee.model);
  }

  /** Whatever a node answers for a receipt, the fee derived from the fields kept is accepted, under either rule, as the
      current reading; so an observation stored before the rule changed is never called corrupt. */
  lemma DerivedValidates(receipt: map<Field, Answer>, input: Input, model: FeeModel, earlier: bool)
    requires input.fields == map f | f in receipt && receipt[f] != Absent :: StoredText(receipt[f])
    requires WellFormed(input.(fields := map[]))
    ensures Validate(Derive(input, model, earlier)) == Ok(Derive(input, model, false))
  {
    forall f | f in input.fields ensures |input.fields[f]| <= 66 { assert input.fields[f] == StoredText(receipt[f]); }
  }

  /** Two accepted fees over the same inputs and model are read alike, and are equal unless one of them is the earlier
      rule's refusal of an OP-stack footprint; two complete ones are always equal. */
  lemma AcceptedFeesAgree(a: Fee, b: Fee)
    requires a.input == b.input && a.model == b.model && Validate(a).Ok? && Validate(b).Ok?
    ensures Validate(a) == Validate(b)
    ensures a.outcome.Complete? && b.outcome.Complete? ==> a == b
    ensures a == b || (a.model == OpStack && Incomplete(BlobUnmodeled) in {a.outcome, b.outcome})
  {
    EarlierRuleAgrees(a.input, a.model);
  }
}
