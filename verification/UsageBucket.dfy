/** What each ledger operation does to one bucket (one account, network and asset), as a function of the stored rows. */
module UsageBucket {
  import opened Basics
  import AP = AssetPolicy
  import opened UsageRecord

  type Rows = seq<Reservation>

  const METAMASK_NAMESPACE := "apn.metamask-native:"
  const CLEANUP_NAMESPACE := "apn.cleanup85-native:"
  const PERMIT2_NAMESPACE := "x402-permit2-production.v2:"

  datatype ReserveInput = ReserveInput(
    account: string, chain: string, kind: AP.Kind, identifier: Option<string>,
    registry: AP.Registry, rail: AP.Rail, mechanism: Option<AP.ProviderPin>,
    amount: nat, key: string, now: int, retryFailedBeforeEffect: bool)

  datatype OwnerCapInput = OwnerCapInput(
    identity: Identity, rail: AP.Rail, amount: nat, maximum: nat,
    policyDigest: AP.Digest, registryVersion: string, key: string, now: int)

  datatype TransitionInput = TransitionInput(
    id: ReservationId, policyDigest: AP.Digest, state: TargetState, now: int,
    outcome: Option<Outcome>, consumed: Option<nat>, effectAt: Option<int>, expected: Option<set<State>>)

  datatype CancelInput = CancelInput(
    identity: Identity, key: string, policyDigest: AP.Digest, registryVersion: string,
    rail: AP.Rail, amount: nat, outcome: Outcome, now: int)

  datatype SettleInput = SettleInput(account: string, policyDigest: AP.Digest, proof: FeeProof, now: int)

  /** A completed call: the bucket after it, the row it answers with, the daily cap it checked against usage
      (0 when it checked none) and the amount it charged without a daily check. */
  datatype Applied = Applied(rows: Rows, record: Reservation, dailyCap: nat, unchecked: nat)

  function Unchanged(rows: Rows, r: Reservation): Applied { Applied(rows, r, 0, 0) }

  function FindIndex(rows: Rows, id: ReservationId): (i: Option<nat>)
    ensures i.Some? ==> i.value < |rows| && rows[i.value].id == id
    ensures i.None? <==> forall j :: 0 <= j < |rows| ==> rows[j].id != id
  {
    if rows == [] then None
    else if rows[|rows| - 1].id == id then Some(|rows| - 1)
    else FindIndex(rows[..|rows| - 1], id)
  }

  function Find(rows: Rows, id: ReservationId): (r: Option<Reservation>)
    ensures r.Some? ==> r.value in rows && r.value.id == id
    ensures r.None? <==> forall j :: 0 <= j < |rows| ==> rows[j].id != id
  {
    var i := FindIndex(rows, id);
    if i.Some? then Some(rows[i.value]) else None
  }

  /** One bucket's integrity: every row valid, of this identity, and alone under its id. */
  ghost predicate ValidBucket(identity: Identity, rows: Rows) {
    && (forall i :: 0 <= i < |rows| ==> ValidReservation(rows[i]) && rows[i].id.identity == identity)
    && (forall i, j :: 0 <= i < j < |rows| ==> rows[i].id != rows[j].id)
  }

  /** A fresh hold, stamped no earlier than anything in its bucket. */
  function NewHold(id: ReservationId, policyDigest: AP.Digest, version: string, rail: AP.Rail, amount: nat,
                   at: int): Reservation
  {
    Reservation(id, policyDigest, version, rail, amount, None, None, Reserved, at, at, None, None)
  }

  // ---------------------------------------------------------------- reserveBound

  function PolicyRequest(input: ReserveInput, usage: nat): AP.Request {
    AP.Request(input.chain, input.kind, input.identifier, input.rail, input.mechanism, input.amount, usage,
               Day(input.now), Some(input.now))
  }

  /** The bucket and key a reserve addresses, after the checks made before the bucket lock. */
  function ReserveTarget(codec: AP.Codec, input: ReserveInput): Result<(ReservationId, AP.Admission)> {
    if HasPrefix(input.key, METAMASK_NAMESPACE) || HasPrefix(input.key, CLEANUP_NAMESPACE) then Err(OperationBlocked)
    else
      var initial :- AP.Evaluate(codec, input.registry, PolicyRequest(input, 0));
      if !codec.account(initial.chain, input.account) || !IsIdempotencyKey(input.key) then Err(InvalidInput)
      else Ok((ReservationId(Identity(input.account, initial.chain, initial.row.kind, initial.row.identifier),
                             input.key), initial))
  }

  /** The second evaluation, under the bucket lock, against everything charged at `now`. */
  function CheckDay(codec: AP.Codec, rows: Rows, id: ReservationId, input: ReserveInput): Result<AP.Admission> {
    var usage :- UsageResult(rows, input.now);
    AP.Evaluate(codec, input.registry,
                PolicyRequest(input, usage).(chain := id.identity.chain, identifier := id.identity.identifier))
  }

  function Reserve(codec: AP.Codec, rows: Rows, id: ReservationId, initial: AP.Admission,
                   input: ReserveInput): Result<Applied>
  {
    ReserveChecked(rows, id, initial, input.retryFailedBeforeEffect, input.now, CheckDay(codec, rows, id, input))
  }

  /** Replay, reopen or create, given the verdict of the day's check (used only where a charge is added). */
  function ReserveChecked(rows: Rows, id: ReservationId, initial: AP.Admission, retry: bool, now: int,
                          checked: Result<AP.Admission>): Result<Applied>
  {
    var at := BucketStamp(rows, now);
    match FindIndex(rows, id)
    case Some(i) =>
      var existing := rows[i];
      if !IsReplay(existing, initial.policyDigest, initial.registryVersion, initial.rail, initial.amount) then
        Err(OperationBlocked)
      else if !(retry && existing.state == FailedBeforeEffect) then Ok(Unchanged(rows, existing))
      else
        var admission :- checked;
        var reopened :- Seal(existing.(state := Reserved, reservedAt := at, updatedAt := at, effectAt := None,
                                       outcome := None));
        Ok(Applied(rows[i := reopened], reopened, admission.caps.daily, 0))
    case None =>
      var admission :- checked;
      var hold :- Seal(NewHold(id, initial.policyDigest, initial.registryVersion, initial.rail, initial.amount, at));
      Ok(Applied(rows + [hold], hold, admission.caps.daily, 0))
  }

  // ---------------------------------------------------------------- reserveWithinOwnerCap

  function ReserveWithinOwnerCap(rows: Rows, input: OwnerCapInput): Result<Applied> {
    var id := ReservationId(input.identity, input.key);
    if !IsIdempotencyKey(input.key) || input.amount == 0 || input.amount > MAX_UINT256 then Err(InvalidInput)
    else if input.rail != AP.X402 then Err(OperationBlocked)
    else if input.maximum == 0 || input.maximum > MAX_UINT256 then Err(InvalidInput)
    else if input.amount > input.maximum then Err(OperationBlocked)
    else
      match Find(rows, id)
      case Some(existing) =>
        if IsReplay(existing, input.policyDigest, input.registryVersion, input.rail, input.amount) then
          Ok(Unchanged(rows, existing))
        else Err(OperationBlocked)
      case None =>
        var hold :- Seal(NewHold(id, input.policyDigest, input.registryVersion, input.rail, input.amount,
                                 BucketStamp(rows, input.now)));
        Ok(Applied(rows + [hold], hold, 0, input.amount))
  }

  // ---------------------------------------------------------------- transition

  function CheckTransition(current: Reservation, input: TransitionInput): Result<()> {
    if current.policyDigest != input.policyDigest then Err(OperationBlocked)
    else if input.expected.Some? && current.state !in input.expected.value then Err(OperationBlocked)
    else if Terminal(input.state) && input.outcome.None? then Err(InvalidInput)
    else if input.consumed.Some? && input.consumed.value > MAX_UINT256 then Err(StateCorrupt)
    else if input.consumed.Some? && (input.state != FailedConfirmedRevert || input.consumed.value > current.amount) then
      Err(OperationBlocked)
    else if input.effectAt.Some? && input.state != Finalized then Err(InvalidInput)
    else Ok(())
  }

  function Outcomes(input: TransitionInput): Option<Outcome> {
    if Terminal(input.state) then input.outcome else None
  }

  function Moved(current: Reservation, input: TransitionInput, at: int): Reservation
    requires current.updatedAt <= at
  {
    var effectAt := if input.state == Finalized then Some(ClampEffect(input.effectAt, current.updatedAt, at))
                    else if input.consumed.Some? then Some(at) else None;
    current.(state := input.state, updatedAt := at, effectAt := effectAt, outcome := Outcomes(input),
             consumed := if input.consumed.Some? then input.consumed else current.consumed)
  }

  function Transition(rows: Rows, input: TransitionInput): Result<Applied> {
    if input.expected == Some({}) then Err(InvalidInput)
    else
      match FindIndex(rows, input.id)
      case None => Err(OperationBlocked)
      case Some(i) => TransitionRow(rows, i, input)
  }

  function TransitionRow(rows: Rows, i: nat, input: TransitionInput): Result<Applied>
    requires i < |rows|
  {
    var current := rows[i];
    var _ :- CheckTransition(current, input);
    if current.state == input.state then
      if current.outcome != Outcomes(input) || current.consumed != input.consumed then Err(OperationBlocked)
      else Ok(Unchanged(rows, current))
    else if !Allowed(current.state, input.state) then Err(OperationBlocked)
    else
      var next :- Seal(Moved(current, input, BucketStamp(rows, input.now)));
      Ok(Applied(rows[i := next], next, 0, 0))
  }

  // ---------------------------------------------------------------- releaseDirectReservedAfter

  /** `now` and `outcome` are what the caller's durable write returned while the bucket lock was held. */
  function ReleaseDirectReserved(rows: Rows, expected: Reservation, now: int, outcome: Outcome): Result<Applied> {
    if !ValidReservation(expected) then Err(StateCorrupt)
    else if expected.rail != AP.Direct || expected.state != Reserved then Err(OperationBlocked)
    else
      match FindIndex(rows, expected.id)
      case None => Err(OperationBlocked)
      case Some(i) =>
        if rows[i] != expected then Err(OperationBlocked)
        else
          var released :- Seal(expected.(state := FailedBeforeEffect, updatedAt := BucketStamp(rows, now),
                                         effectAt := None, outcome := Some(outcome)));
          Ok(Applied(rows[i := released], released, 0, 0))
  }

  // ---------------------------------------------------------------- cancelUnsubmittedReservation

  predicate IsDigit(c: char) { '0' <= c <= '9' }
  predicate IsLowerHex(c: char) { IsDigit(c) || 'a' <= c <= 'f' }
  predicate IsHex(c: char) { IsLowerHex(c) || 'A' <= c <= 'F' }

  predicate IsPermit2Chain(chain: string) {
    && HasPrefix(chain, "eip155:") && 8 <= |chain| <= 23
    && chain[7] != '0' && forall i :: 7 <= i < |chain| ==> IsDigit(chain[i])
  }

  predicate IsPermit2Lease(input: CancelInput) {
    && HasPrefix(input.key, PERMIT2_NAMESPACE) && |input.key| == |PERMIT2_NAMESPACE| + 64
    && (forall i :: |PERMIT2_NAMESPACE| <= i < |input.key| ==> IsLowerHex(input.key[i]))
    && IsPermit2Chain(input.identity.chain)
    && input.identity.kind == AP.Token && input.identity.identifier.Some?
    && HasPrefix(input.identity.identifier.value, "0x") && |input.identity.identifier.value| == 42
    && (forall i :: 2 <= i < 42 ==> IsHex(input.identity.identifier.value[i]))
    && input.rail == AP.X402
    && AP.IsVersion(input.registryVersion)
  }

  /** An absent row becomes a released tombstone, so a delayed reserve with that key can only replay it. */
  function Cancel(rows: Rows, input: CancelInput): Result<Applied> {
    var id := ReservationId(input.identity, input.key);
    var at := BucketStamp(rows, input.now);
    if !IsPermit2Lease(input) || !IsIdempotencyKey(input.key) || input.amount == 0 || input.amount > MAX_UINT256 then
      Err(InvalidInput)
    else
      match FindIndex(rows, id)
      case None =>
        var tombstone :- Seal(NewHold(id, input.policyDigest, input.registryVersion, AP.X402, input.amount, at)
                              .(state := ReleasedUnsubmitted, outcome := Some(input.outcome)));
        Ok(Applied(rows + [tombstone], tombstone, 0, 0))
      case Some(i) =>
        var current := rows[i];
        if !IsReplay(current, input.policyDigest, input.registryVersion, input.rail, input.amount) then
          Err(OperationBlocked)
        else if current.state == ReleasedUnsubmitted then
          if current.outcome != Some(input.outcome) then Err(OperationBlocked) else Ok(Unchanged(rows, current))
        else if current.state != Reserved then Err(OperationBlocked)
        else
          var released :- Seal(current.(state := ReleasedUnsubmitted, updatedAt := at, effectAt := None,
                                        outcome := Some(input.outcome)));
          Ok(Applied(rows[i := released], released, 0, 0))
  }

  // ---------------------------------------------------------------- settleMerchantNativeActualFee

  function MerchantIdentity(account: string): Identity { Identity(account, "eip155:4326", AP.Native, None) }

  /** The receipt proof itself is taken as given; the ledger charges the proven fee instead of the held one. */
  function SettleMerchant(rows: Rows, input: SettleInput): Result<Applied> {
    var id := ReservationId(MerchantIdentity(input.account), MERCHANT_NAMESPACE + input.proof.operationId);
    match FindIndex(rows, id)
    case None => Err(OperationBlocked)
    case Some(i) =>
      var current := rows[i];
      var outcome := FeeProofHash(input.proof);
      if current.rail != AP.X402 || current.policyDigest != input.policyDigest
        || current.amount != input.proof.reservedFee
         || input.proof.actualFee > current.amount then Err(OperationBlocked)
      else if current.state == Finalized then
        if current.outcome != Some(outcome) || current.actualFee != Some(input.proof) then Err(OperationBlocked)
        else Ok(Unchanged(rows, current))
      else if current.state !in {Submitted, UnknownFinality} then Err(OperationBlocked)
      else
        var at := BucketStamp(rows, input.now);
        var next :- Seal(current.(state := Finalized, updatedAt := at, effectAt := Some(at), outcome := Some(outcome),
                                  consumed := Some(input.proof.actualFee), actualFee := Some(input.proof)));
        Ok(Applied(rows[i := next], next, 0, 0))
  }

  // ---------------------------------------------------------------- one step of a bucket

  datatype Command =
    | ReserveCommand(reserve: ReserveInput)
    | OwnerCapCommand(ownerCap: OwnerCapInput)
    | TransitionCommand(transition: TransitionInput)
    | ReleaseCommand(expected: Reservation, now: int, outcome: Outcome)
    | CancelCommand(cancel: CancelInput)
    | SettleCommand(settle: SettleInput)

  /** Apply one command if it addresses this bucket; a command for another bucket is refused here. */
  function Apply(codec: AP.Codec, identity: Identity, rows: Rows, c: Command): Result<Applied> {
    match c
    case ReserveCommand(input) =>
      var (id, initial) :- ReserveTarget(codec, input);
      if id.identity != identity then Err(InvalidInput) else Reserve(codec, rows, id, initial, input)
    case OwnerCapCommand(input) =>
      if input.identity != identity then Err(InvalidInput) else ReserveWithinOwnerCap(rows, input)
    case TransitionCommand(input) =>
      if input.id.identity != identity then Err(InvalidInput) else Transition(rows, input)
    case ReleaseCommand(expected, now, outcome) =>
      if expected.id.identity != identity then Err(InvalidInput)
      else ReleaseDirectReserved(rows, expected, now, outcome)
    case CancelCommand(input) => if input.identity != identity then Err(InvalidInput) else Cancel(rows, input)
    case SettleCommand(input) =>
      if MerchantIdentity(input.account) != identity then Err(InvalidInput) else SettleMerchant(rows, input)
  }
}
