/** The Coinbase gasless rail: it re-checks the owner policy around its own hold, which it subtracts from the day's
    usage. */
module GaslessRail {
  import opened Basics
  import AP = AssetPolicy
  import opened UsageRecord
  import opened UsageBucket
  import opened UsageBucketProofs
  import opened UsageLedger

  const BASE_USDC := "0x833589fCD6eDb6E08f4c7C32D4f71b54bdA02913"
  const MECHANISM := AP.ProviderPin("coinbase-agentic-wallet", "awal@2.12.1:send_base_usdc:eip155:8453")

  datatype OperationState =
    | AwaitingApproval | Started | AmbiguousEffect | EvidencePending | ProviderPending | ProviderAcknowledged
    | Completed | FailedBefore

  datatype Operation = Operation(account: string, recipient: string, amount: nat, operationId: string,
                                 state: OperationState, integrityHash: string)

  /** The owner policy active now. */
  datatype ActivePolicy = ActivePolicy(registry: AP.Registry, digest: AP.Digest, revision: nat, activation: string,
                                       evmAccount: string)

  /** What the operation froze at prepare. */
  datatype Binding = Binding(policyDigest: AP.Digest, revision: nat, activation: string)

  function IdentityOf(op: Operation): Identity { Identity(op.account, AP.BASE_CHAIN, AP.Token, Some(BASE_USDC)) }
  function KeyFor(op: Operation): string { "apn.coinbase-gasless:" + op.operationId }
  function IdOf(op: Operation): ReservationId { ReservationId(IdentityOf(op), KeyFor(op)) }

  /** The policy must admit this transfer given `usage` charged by everything else, on the pinned mechanism and
      recipient. */
  function Admit(codec: AP.Codec, active: ActivePolicy, op: Operation, usage: nat, now: int): Result<()> {
    if active.evmAccount != op.account || active.digest != active.registry.policyDigest then Err(AllowlistRefused)
    else
      AdmitAnswer(op, AP.Evaluate(codec, active.registry,
        AP.Request(AP.BASE_CHAIN, AP.Token, Some(BASE_USDC), AP.Gasless, None, op.amount, usage, Day(now), Some(now))))
  }

  /** The rail's own demands on the row the evaluator admitted. */
  function AdmitAnswer(op: Operation, admitted: Result<AP.Admission>): Result<()> {
    if admitted.Err? then Err(if admitted.error == OperationBlocked then AllowlistRefused else admitted.error)
    else
      var row := admitted.value.row;
      if row.decimals != 6 || !(AP.Gasless in row.pins && row.pins[AP.Gasless] == AP.Provider(MECHANISM)) then
        Err(AllowlistRefused)
      else if row.gaslessRecipient != Some(op.recipient) then Err(AllowlistRefused)
      else Ok(())
  }

  predicate OwnHold(r: Reservation, binding: Binding, op: Operation) {
    r.policyDigest == binding.policyDigest && r.amount == op.amount && r.rail == AP.Gasless && r.state == Reserved
  }

  /** Usage charged by everything but the operation's own hold; the subtraction never underflows. */
  function UsageByOthers(rows: Rows, own: Option<nat>, day: int): (usage: nat)
    requires own.Some? ==> own.value < |rows| && Open(rows[own.value].state)
  {
    if own.None? then Usage(rows, day)
    else
      HoldWithinUsage(rows, own.value, day);
      Usage(rows, day) - rows[own.value].amount
  }

  /** The first half of `assert`: the frozen policy is still active and a hold of its own is exactly today's. */
  function OthersToday(rows: Rows, active: ActivePolicy, op: Operation, binding: Binding, now: int): Result<nat> {
    if active.digest != binding.policyDigest || active.revision != binding.revision
      || active.activation != binding.activation then Err(AllowlistRefused)
    else
      var _ :- UsageResult(rows, now);
      var own := FindIndex(rows, IdOf(op));
      if own.Some? && !OwnHold(rows[own.value], binding, op) then Err(StateCorrupt)
      else if own.Some? && Day(rows[own.value].reservedAt) != Day(now) then Err(AllowlistRefused)
      else Ok(UsageByOthers(rows, own, Day(now)))
  }

  /** `assert`: the frozen policy is still active and still admits the transfer, its own hold set aside. */
  function CheckPolicy(codec: AP.Codec, rows: Rows, active: ActivePolicy, op: Operation, binding: Binding,
                       now: int): Result<()>
  {
    var others :- OthersToday(rows, active, op, binding, now);
    Admit(codec, active, op, others, now)
  }

  function ReserveInputOf(active: ActivePolicy, op: Operation, now: int): ReserveInput {
    ReserveInput(op.account, AP.BASE_CHAIN, AP.Token, Some(BASE_USDC), active.registry, AP.Gasless, Some(MECHANISM),
                 op.amount, KeyFor(op), now, false)
  }

  /** The answer of the shared ledger is the operation's own open hold under the frozen policy. */
  predicate TakenHold(lease: Reservation, binding: Binding, op: Operation) {
    lease.id == IdOf(op) && lease.policyDigest == binding.policyDigest && lease.state == Reserved
  }

  /** The one bucket `reserve` may write, its rows after it, and the answer. */
  datatype Done = Done(identity: Identity, rows: Rows, answer: Result<()>)

  function Refused(buckets: Buckets, op: Operation, error: ErrorCode): Done {
    Done(IdentityOf(op), BucketOf(buckets, IdentityOf(op)), Err(error))
  }

  /** `reserve`: check, hold, check again with the hold set aside, at the three steps' own clock readings. */
  function ReserveAround(
      codec: AP.Codec, buckets: Buckets, active: ActivePolicy, op: Operation, binding: Binding,
      first: int, second: int, third: int): Done
  {
    var before := CheckPolicy(codec, BucketOf(buckets, IdentityOf(op)), active, op, binding, first);
    if before.Err? then Refused(buckets, op, before.error)
    else
      var target := ReserveTarget(codec, ReserveInputOf(active, op, second));
      if target.Err? then Refused(buckets, op, target.error)
      else HoldAndRecheck(codec, buckets, active, op, binding, target.value.0, target.value.1, second, third)
  }

  function HoldAndRecheck(
      codec: AP.Codec, buckets: Buckets, active: ActivePolicy, op: Operation, binding: Binding,
      id: ReservationId, initial: AP.Admission, second: int, third: int): Done
  {
    AfterHold(codec, buckets, active, op, binding, id.identity,
              Reserve(codec, BucketOf(buckets, id.identity), id, initial, ReserveInputOf(active, op, second)), third)
  }

  /** What the shared ledger's answer leads to. */
  function AfterHold(
      codec: AP.Codec, buckets: Buckets, active: ActivePolicy, op: Operation, binding: Binding,
      identity: Identity, held: Result<Applied>, third: int): Done
  {
    if held.Err? then Refused(buckets, op, held.error)
    else Done(identity, held.value.rows, Recheck(codec, held.value, active, op, binding, third))
  }

  function Recheck(codec: AP.Codec, held: Applied, active: ActivePolicy, op: Operation, binding: Binding,
                   now: int): Result<()>
  {
    if !TakenHold(held.record, binding, op) then Err(StateCorrupt)
    else CheckPolicy(codec, held.rows, active, op, binding, now)
  }

  // ---------------------------------------------------------------- the operation's own hold is set aside exactly

  lemma AppendedIndex(rows: Rows, hold: Reservation)
    requires FindIndex(rows, hold.id).None?
    ensures FindIndex(rows + [hold], hold.id) == Some(|rows|)
  {
    assert (rows + [hold])[|rows|].id == hold.id;
  }

  /** Adding the operation's own hold and then subtracting it gives back the usage before it, on every day. */
  lemma OwnHoldCancelsOut(rows: Rows, hold: Reservation, day: int)
    requires FindIndex(rows, hold.id).None? && Open(hold.state)
    ensures UsageByOthers(rows + [hold], Some(|rows|), day) == Usage(rows, day)
  {
    TotalAppend(UsageAt(day), rows, hold);
  }

  lemma AdmitFits(codec: AP.Codec, active: ActivePolicy, op: Operation, usage: nat, now: int)
    requires Admit(codec, active, op, usage, now).Ok?
    ensures usage + op.amount <= MAX_UINT256
  {
    AP.EvaluateBounds(codec, active.registry,
      AP.Request(AP.BASE_CHAIN, AP.Token, Some(BASE_USDC), AP.Gasless, None, op.amount, usage, Day(now), Some(now)));
  }

  /** Re-checking after its own reserve: on the hold's own day the verdict is the one given before the hold existed, at
      any later or earlier clock reading of that day; on any other day the check refuses. */
  lemma RecheckAfterReserve(codec: AP.Codec, rows: Rows, hold: Reservation, active: ActivePolicy, op: Operation,
                            binding: Binding, now: int)
    requires FindIndex(rows, IdOf(op)).None? && hold.id == IdOf(op) && OwnHold(hold, binding, op)
    ensures var before, after :=
      CheckPolicy(codec, rows, active, op, binding, now), CheckPolicy(codec, rows + [hold], active, op, binding, now);
      after.Ok? <==> before.Ok? && Day(hold.reservedAt) == Day(now)
  {
    AppendedIndex(rows, hold);
    OwnHoldCancelsOut(rows, hold, Day(now));
    TotalAppend(UsageAt(Day(now)), rows, hold);
    if Admit(codec, active, op, Usage(rows, Day(now)), now).Ok? {
      AdmitFits(codec, active, op, Usage(rows, Day(now)), now);
    }
  }

  /** The row the ledger answers with is the one stored under the addressed id. */
  lemma HeldUnder(codec: AP.Codec, rows: Rows, id: ReservationId, initial: AP.Admission, active: ActivePolicy,
                  op: Operation, now: int)
    ensures var r := Reserve(codec, rows, id, initial, ReserveInputOf(active, op, now));
      r.Ok? ==>
        && r.value.record.id == id && Find(r.value.rows, id) == Some(r.value.record)
        && IsReplay(r.value.record, initial.policyDigest, initial.registryVersion, initial.rail, initial.amount)
        && (Find(rows, id).Some? ==> r.value.rows == rows)
        && (Find(rows, id).None? ==> r.value.rows == rows + [r.value.record] && r.value.record.state == Reserved)
  {
    var checked := CheckDay(codec, rows, id, ReserveInputOf(active, op, now));
    if ReserveChecked(rows, id, initial, false, now, checked).Ok? { ReserveAnswers(rows, id, initial, now, checked); }
  }

  /** The ledger addresses the operation's key, for its amount on this rail under the active policy. */
  lemma TargetOf(codec: AP.Codec, active: ActivePolicy, op: Operation, now: int)
    requires ReserveTarget(codec, ReserveInputOf(active, op, now)).Ok?
    ensures var (id, initial) := ReserveTarget(codec, ReserveInputOf(active, op, now)).value;
      && id.key == KeyFor(op) && initial.amount == op.amount && initial.rail == AP.Gasless
      && initial.policyDigest == active.registry.policyDigest
  {
    AP.EvaluateBounds(codec, active.registry, PolicyRequest(ReserveInputOf(active, op, now), 0));
  }

  /** A bucket a call wrote: it gained the operation's own hold, and the last check asked on it what the first one
      asked, on the hold's own day. */
  ghost predicate GainedHold(codec: AP.Codec, rows: Rows, done: Done, active: ActivePolicy, op: Operation,
                             binding: Binding, third: int)
  {
    && Find(rows, IdOf(op)).None? && |done.rows| == |rows| + 1 && done.rows == rows + [done.rows[|rows|]]
    && OwnHold(done.rows[|rows|], binding, op) && done.rows[|rows|].id == IdOf(op)
    && (done.answer.Ok? <==>
          CheckPolicy(codec, rows, active, op, binding, third).Ok? && Day(done.rows[|rows|].reservedAt) == Day(third))
  }

  lemma HeldLeaves(codec: AP.Codec, rows: Rows, held: Applied, active: ActivePolicy, op: Operation, binding: Binding,
                   third: int)
    requires held.record.id == IdOf(op) && Find(held.rows, IdOf(op)) == Some(held.record)
    requires held.record.amount == op.amount && held.record.rail == AP.Gasless
    requires held.record.policyDigest == active.digest == binding.policyDigest
    requires Find(rows, IdOf(op)).Some? ==> held.rows == rows
    requires Find(rows, IdOf(op)).None? ==> held.rows == rows + [held.record] && held.record.state == Reserved
    ensures var done := Done(IdentityOf(op), held.rows, Recheck(codec, held, active, op, binding, third));
      && (done.rows == rows || GainedHold(codec, rows, done, active, op, binding, third))
      && (done.answer.Ok? ==>
           OwnHold(held.record, binding, op) && CheckPolicy(codec, held.rows, active, op, binding, third).Ok?)
  {
    if Find(rows, IdOf(op)).None? {
      RecheckAfterReserve(codec, rows, held.record, active, op, binding, third);
      assert held.rows[|rows|] == held.record;
    }
  }

  /** What a call leaves: a refusal by the first check writes nothing, and a key already stored is never charged again;
      the operation's bucket keeps its rows or gains its one open hold, and keeps that hold even when the last check
      refuses. */
  lemma ReserveLeaves(codec: AP.Codec, buckets: Buckets, active: ActivePolicy, op: Operation, binding: Binding,
                      first: int, second: int, third: int)
    ensures var rows := BucketOf(buckets, IdentityOf(op));
      var done := ReserveAround(codec, buckets, active, op, binding, first, second, third);
      && (CheckPolicy(codec, rows, active, op, binding, first).Err? ==>
            done == Done(IdentityOf(op), rows, CheckPolicy(codec, rows, active, op, binding, first)))
      && (done.identity == IdentityOf(op) ==>
            done.rows == rows || GainedHold(codec, rows, done, active, op, binding, third))
      && (done.answer.Ok? ==>
            && done.identity == IdentityOf(op) && Find(done.rows, IdOf(op)).Some?
            && OwnHold(Find(done.rows, IdOf(op)).value, binding, op)
            && CheckPolicy(codec, done.rows, active, op, binding, third).Ok?)
  {
    var rows := BucketOf(buckets, IdentityOf(op));
    if CheckPolicy(codec, rows, active, op, binding, first).Ok? {
      CheckedDigests(codec, rows, active, op, binding, first);
      var target := ReserveTarget(codec, ReserveInputOf(active, op, second));
      if target.Ok? {
        var (id, initial) := target.value;
        TargetOf(codec, active, op, second);
        HeldUnder(codec, BucketOf(buckets, id.identity), id, initial, active, op, second);
        AfterLeaves(codec, buckets, active, op, binding, id, initial,
                    Reserve(codec, BucketOf(buckets, id.identity), id, initial, ReserveInputOf(active, op, second)),
                    third);
      }
    }
  }

  lemma CheckedDigests(codec: AP.Codec, rows: Rows, active: ActivePolicy, op: Operation, binding: Binding, now: int)
    requires CheckPolicy(codec, rows, active, op, binding, now).Ok?
    ensures active.digest == binding.policyDigest == active.registry.policyDigest
  {
  }

  lemma AfterLeaves(codec: AP.Codec, buckets: Buckets, active: ActivePolicy, op: Operation, binding: Binding,
                    id: ReservationId, initial: AP.Admission, held: Result<Applied>, third: int)
    requires id.key == KeyFor(op) && initial.amount == op.amount && initial.rail == AP.Gasless
    requires active.digest == binding.policyDigest == active.registry.policyDigest == initial.policyDigest
    requires held.Ok? ==>
      && held.value.record.id == id && Find(held.value.rows, id) == Some(held.value.record)
      && IsReplay(held.value.record, initial.policyDigest, initial.registryVersion, initial.rail, initial.amount)
      && var rows := BucketOf(buckets, id.identity);
         && (Find(rows, id).Some? ==> held.value.rows == rows)
         && (Find(rows, id).None? ==>
              held.value.rows == rows + [held.value.record] && held.value.record.state == Reserved)
    ensures var rows := BucketOf(buckets, IdentityOf(op));
      var done := AfterHold(codec, buckets, active, op, binding, id.identity, held, third);
      && (done.identity == IdentityOf(op) ==>
           done.rows == rows || GainedHold(codec, rows, done, active, op, binding, third))
      && (done.answer.Ok? ==>
            && done.identity == IdentityOf(op) && Find(done.rows, IdOf(op)).Some?
            && OwnHold(Find(done.rows, IdOf(op)).value, binding, op)
            && CheckPolicy(codec, done.rows, active, op, binding, third).Ok?)
  {
    if held.Ok? && id.identity == IdentityOf(op) {
      HeldLeaves(codec, BucketOf(buckets, id.identity), held.value, active, op, binding, third);
    }
  }

  // ---------------------------------------------------------------- reconcile

  /** The ledger state an operation's journal asks for, if any; `recovering` marks a started operation found after a
      crash. */
  function ReconcileTarget(op: Operation, recovering: bool): Option<TargetState> {
    match op.state
    case FailedBefore => Some(FailedBeforeEffect)
    case Completed => Some(Finalized)
    case Started => if recovering then Some(UnknownFinality) else None
    case AmbiguousEffect | EvidencePending | ProviderPending | ProviderAcknowledged => Some(UnknownFinality)
    case AwaitingApproval => None
  }

  /** What `reconcile` decides to write: nothing, one ledger move, or that journal and ledger contradict. */
  function ReconcileMove(rows: Rows, op: Operation, binding: Binding, recovering: bool,
                         now: int): Result<Option<TransitionInput>>
  {
    match Find(rows, IdOf(op))
    case None => if op.state == AwaitingApproval || op.state == FailedBefore then Ok(None) else Err(StateCorrupt)
    case Some(lease) =>
      if lease.policyDigest != binding.policyDigest || lease.amount != op.amount || lease.rail != AP.Gasless then
        Err(StateCorrupt)
      else
        match ReconcileTarget(op, recovering)
        case None => Ok(None)
        case Some(target) =>
          if lease.state == target || (target == UnknownFinality && lease.state == Finalized) then Ok(None)
          else if target == FailedBeforeEffect && lease.state != Reserved then Err(StateCorrupt)
          else if target == Finalized && lease.state != Reserved && lease.state != UnknownFinality then
            Err(StateCorrupt)
          else if target == UnknownFinality && lease.state != Reserved then Err(StateCorrupt)
          else Ok(Some(TransitionInput(IdOf(op), binding.policyDigest, target, now,
                                       if Terminal(target) then Some(Evidence(op.integrityHash))
                                       else None, None, None, None)))
  }

  function Reconciled(rows: Rows, op: Operation, binding: Binding, recovering: bool, now: int): Result<Rows> {
    var move :- ReconcileMove(rows, op, binding, recovering, now);
    PerformMove(rows, move)
  }

  function PerformMove(rows: Rows, move: Option<TransitionInput>): Result<Rows> {
    if move.None? then Ok(rows)
    else
      var applied :- Transition(rows, move.value);
      Ok(applied.rows)
  }

  /** What a planned reconcile relies on: the operation's own row, with its amount; and unless the journal has a final
      answer, the row either stays open or moves to an uncertain one. */
  lemma PlannedMove(rows: Rows, op: Operation, binding: Binding, recovering: bool, now: int)
    requires ReconcileMove(rows, op, binding, recovering, now).Ok? && Find(rows, IdOf(op)).Some?
    ensures var lease, move := Find(rows, IdOf(op)).value, ReconcileMove(rows, op, binding, recovering, now).value;
      && lease.amount == op.amount
      && (move.Some? ==>
            && move.value.id == IdOf(op) && move.value.now == now && move.value.expected.None?
            && CheckTransition(lease, move.value).Ok? && Allowed(lease.state, move.value.state)
            && (op.state !in {FailedBefore, Completed} ==> move.value.state == UnknownFinality))
  {
  }

  /** A legal move of a sound bucket's row succeeds and stores the moved row. */
  lemma LegalMoveStores(identity: Identity, rows: Rows, input: TransitionInput)
    requires ValidBucket(identity, rows) && Find(rows, input.id).Some? && input.expected.None?
    requires CheckTransition(Find(rows, input.id).value, input).Ok?
    requires Allowed(Find(rows, input.id).value.state, input.state)
    ensures var r := Transition(rows, input);
      r.Ok? && Find(r.value.rows, input.id) ==
        Some(Moved(Find(rows, input.id).value, input, BucketStamp(rows, input.now)))
  {
    var i := FindIndex(rows, input.id).value;
    var next := Moved(rows[i], input, BucketStamp(rows, input.now));
    MovedIsValid(rows[i], input, BucketStamp(rows, input.now));
    assert Transition(rows, input) == Ok(Applied(rows[i := next], next, 0, 0));
    UpdatedIsFound(rows, i, next);
  }

  lemma UpdatedIsFound(rows: Rows, i: nat, r: Reservation)
    requires i < |rows| && rows[i].id == r.id
    requires forall j, k :: 0 <= j < k < |rows| ==> rows[j].id != rows[k].id
    ensures Find(rows[i := r], r.id) == Some(r)
  {
    assert rows[i := r][i].id == r.id;
    assert rows[i := r][FindIndex(rows[i := r], r.id).value].id == r.id;
  }

  predicate OpenAt(rows: Rows, id: ReservationId) { Find(rows, id).Some? && Open(Find(rows, id).value.state) }

  /** `reconcile` never meets an illegal ledger move, and it gives capacity back only to an operation its journal shows
      failed before effect: an uncertain provider effect keeps the whole reservation charged on every day. */
  lemma ReconcileKeepsUncertainCharged(rows: Rows, op: Operation, binding: Binding, recovering: bool, now: int,
                                       day: int)
    requires ValidBucket(IdentityOf(op), rows) && ReconcileMove(rows, op, binding, recovering, now).Ok?
    ensures var r := Reconciled(rows, op, binding, recovering, now);
      && r.Ok?
      && (op.state !in {FailedBefore, Completed} && OpenAt(rows, IdOf(op)) ==>
            Find(r.value, IdOf(op)).Some? && Charge(Find(r.value, IdOf(op)).value, day) == op.amount)
  {
    var move := ReconcileMove(rows, op, binding, recovering, now).value;
    if Find(rows, IdOf(op)).Some? {
      PlannedMove(rows, op, binding, recovering, now);
      if move.Some? { LegalMoveStores(IdentityOf(op), rows, move.value); }
    }
  }

  // ---------------------------------------------------------------- the rail over the ledger object

  class CoinbaseGaslessPolicy {
    const ledger: AssetUsageLedger

    constructor (ledger: AssetUsageLedger)
      ensures this.ledger == ledger
    {
      this.ledger := ledger;
    }

    method Assert(active: ActivePolicy, op: Operation, binding: Binding, now: int) returns (r: Result<()>)
      requires ledger.Valid()
      ensures r == CheckPolicy(ledger.codec, BucketOf(ledger.buckets, IdentityOf(op)), active, op, binding, now)
    {
      var others := SetOwnHoldAside(active, op, binding, now);
      if others.Err? { return Err(others.error); }
      r := Admit(ledger.codec, active, op, others.value, now);
    }

    method SetOwnHoldAside(active: ActivePolicy, op: Operation, binding: Binding, now: int) returns (r: Result<nat>)
      requires ledger.Valid()
      ensures r == OthersToday(BucketOf(ledger.buckets, IdentityOf(op)), active, op, binding, now)
    {
      if active.digest != binding.policyDigest || active.revision != binding.revision
        || active.activation != binding.activation {
        return Err(AllowlistRefused);
      }
      ghost var rows := BucketOf(ledger.buckets, IdentityOf(op));
      var usage, reservation := ledger.UsageWithReservation(IdentityOf(op), IdOf(op), now);
      if usage.Err? { return Err(usage.error); }
      var own := 0;
      if reservation.Some? {
        if !OwnHold(reservation.value, binding, op) { return Err(StateCorrupt); }
        if Day(reservation.value.reservedAt) != Day(now) { return Err(AllowlistRefused); }
        own := reservation.value.amount;
        HoldWithinUsage(rows, FindIndex(rows, IdOf(op)).value, Day(now));
      }
      return Ok(usage.value - own);
    }

    /** Check, hold, check again; the three clock readings are those of the three steps. */
    method Reserve(active: ActivePolicy, op: Operation, binding: Binding, first: int, second: int, third: int)
      returns (r: Result<()>)
      requires ledger.Valid()
      modifies ledger
      ensures ledger.Valid()
      ensures var done := ReserveAround(ledger.codec, old(ledger.buckets), active, op, binding, first, second, third);
        r == done.answer && OnlyBucket(old(ledger.buckets), ledger.buckets, done.identity, done.rows)
    {
      var before := Assert(active, op, binding, first);
      if before.Err? { return Err(before.error); }
      r := HoldThenAssert(active, op, binding, second, third);
    }

    method HoldThenAssert(active: ActivePolicy, op: Operation, binding: Binding, second: int, third: int)
      returns (r: Result<()>)
      requires ledger.Valid()
      modifies ledger
      ensures ledger.Valid()
      ensures var target := ReserveTarget(ledger.codec, ReserveInputOf(active, op, second));
        var done := if target.Err? then Refused(old(ledger.buckets), op, target.error)
                    else HoldAndRecheck(ledger.codec, old(ledger.buckets), active, op, binding,
                                        target.value.0, target.value.1, second, third);
        r == done.answer && OnlyBucket(old(ledger.buckets), ledger.buckets, done.identity, done.rows)
    {
      var lease := ledger.Reserve(ReserveInputOf(active, op, second));
      ghost var target := ReserveTarget(ledger.codec, ReserveInputOf(active, op, second));
      ghost var identity := if target.Ok? then target.value.0.identity else IdentityOf(op);
      ghost var held := if target.Err? then Err(target.error)
                        else UsageBucket.Reserve(ledger.codec, BucketOf(old(ledger.buckets), identity), target.value.0,
                                                 target.value.1, ReserveInputOf(active, op, second));
      if target.Ok? {
        HeldUnder(ledger.codec, BucketOf(old(ledger.buckets), identity), target.value.0, target.value.1, active, op,
                  second);
      }
      r := AssertHeld(active, op, binding, lease, third, identity, held, old(ledger.buckets));
    }

    /** The check after the hold, on the ledger that holds it. */
    method AssertHeld(active: ActivePolicy, op: Operation, binding: Binding, lease: Result<Reservation>, third: int,
                      ghost identity: Identity, ghost held: Result<Applied>, ghost before: Buckets)
      returns (r: Result<()>)
      requires ledger.Valid() && Performed(before, ledger.buckets, identity, held, lease)
      requires held.Ok? ==> held.value.record.id.identity == identity
      ensures var done := AfterHold(ledger.codec, before, active, op, binding, identity, held, third);
        r == done.answer && OnlyBucket(before, ledger.buckets, done.identity, done.rows)
    {
      if lease.Err? { return Err(lease.error); }
      if !TakenHold(lease.value, binding, op) { return Err(StateCorrupt); }
      r := Assert(active, op, binding, third);
    }

    /** Journal state wins after a crash. */
    method Reconcile(op: Operation, binding: Binding, recovering: bool, now: int) returns (r: Result<()>)
      requires ledger.Valid()
      modifies ledger
      ensures ledger.Valid()
      ensures var rows := BucketOf(old(ledger.buckets), IdentityOf(op));
        var reconciled := Reconciled(rows, op, binding, recovering, now);
        && (r.Ok? <==> reconciled.Ok?)
        && (reconciled.Ok? ==> OnlyBucket(old(ledger.buckets), ledger.buckets, IdentityOf(op), reconciled.value))
    {
      var move := ReconcileMove(BucketOf(ledger.buckets, IdentityOf(op)), op, binding, recovering, now);
      if move.Err? { return Err(move.error); }
      r := Perform(IdentityOf(op), move.value);
    }

    method Perform(identity: Identity, move: Option<TransitionInput>) returns (r: Result<()>)
      requires ledger.Valid() && (move.Some? ==> move.value.id.identity == identity)
      modifies ledger
      ensures ledger.Valid()
      ensures var done := PerformMove(BucketOf(old(ledger.buckets), identity), move);
        && (r.Ok? <==> done.Ok?)
        && (done.Ok? ==> OnlyBucket(old(ledger.buckets), ledger.buckets, identity, done.value))
    {
      if move.None? { return Ok(()); }
      var moved := ledger.Transition(move.value);
      return if moved.Err? then Err(moved.error) else Ok(());
    }
  }
}
