/** What each ledger operation answers, stores and charges, in plain terms: when it succeeds, which row it leaves, and
    how every day's usage and spend change. */
module LedgerMeaning {
  import opened Basics
  import AP = AssetPolicy
  import PM = PolicyMeaning
  import opened UsageRecord
  import opened UsageBucket
  import opened UsageBucketProofs

  // ---------------------------------------------------------------- what a row charges

  /** An open hold is charged in full on every day and has spent nothing. */
  lemma OpenRowCharges(r: Reservation, day: int)
    requires ValidReservation(r) && r.state in {Reserved, Submitted, UnknownFinality}
    ensures Charge(r, day) == r.amount && SpentOn(r, day) == 0
  {
  }

  /** A settled row spent its amount, or the consumption proven instead, on the day it took effect, and is charged on
      the days up to then; a released row never is. */
  lemma ClosedRowCharges(r: Reservation, day: int)
    requires ValidReservation(r) && r.state !in {Reserved, Submitted, UnknownFinality}
    ensures r.state in {FailedBeforeEffect, ReleasedUnsubmitted} ==> Charge(r, day) == SpentOn(r, day) == 0
    ensures r.state == FailedConfirmedRevert && r.consumed.None? ==> Charge(r, day) == SpentOn(r, day) == 0
    ensures r.state == Finalized || (r.state == FailedConfirmedRevert && r.consumed.Some?) ==>
      var spent := if r.consumed.Some? then r.consumed.value else r.amount;
      && r.effectAt.Some?
      && SpentOn(r, day) == (if day == Day(r.effectAt.value) then spent else 0)
      && Charge(r, day) == (if day <= Day(r.effectAt.value) then spent else 0)
  {
  }

  /** In a run, a command does in its own bucket what its operation does there, and nothing in any other. */
  lemma CommandMeaning(codec: AP.Codec, identity: Identity, rows: Rows, c: Command)
    ensures var r := Apply(codec, identity, rows, c);
      match c
      case ReserveCommand(input) =>
        var target := ReserveTarget(codec, input);
        if target.Ok? && target.value.0.identity == identity then
          r == Reserve(codec, rows, target.value.0, target.value.1, input)
        else r.Err?
      case OwnerCapCommand(input) =>
        if input.identity == identity then r == ReserveWithinOwnerCap(rows, input) else r.Err?
      case TransitionCommand(input) => if input.id.identity == identity then r == Transition(rows, input) else r.Err?
      case ReleaseCommand(e, now, outcome) =>
        if e.id.identity == identity then r == ReleaseDirectReserved(rows, e, now, outcome) else r.Err?
      case CancelCommand(input) => if input.identity == identity then r == Cancel(rows, input) else r.Err?
      case SettleCommand(input) =>
        if MerchantIdentity(input.account) == identity then r == SettleMerchant(rows, input) else r.Err?
  {
  }

  /** Any row of a sound bucket, and so, from an empty one, any row any run stores: a positive amount; an outcome
      exactly once it is closed; an instant of effect, within its life, exactly once something is spent; a consumption
      only of a revert or a proven merchant fee, and never more than was held. */
  lemma StoredRow(identity: Identity, rows: Rows, r: Reservation)
    requires ValidBucket(identity, rows) && r in rows
    ensures r.id.identity == identity && 0 < r.amount <= MAX_UINT256 && r.reservedAt <= r.updatedAt
    ensures r.outcome.None? <==> r.state in {Reserved, Submitted, UnknownFinality}
    ensures r.effectAt.Some? <==> r.state == Finalized || (r.state == FailedConfirmedRevert && r.consumed.Some?)
    ensures r.effectAt.Some? ==> r.reservedAt <= r.effectAt.value <= r.updatedAt
    ensures r.effectAt.Some? && r.state == FailedConfirmedRevert ==> r.effectAt.value == r.updatedAt
    ensures r.consumed.Some? ==>
      r.consumed.value <= r.amount && (r.state == FailedConfirmedRevert || r.actualFee.Some?)
    ensures r.actualFee.Some? ==>
      var proof := r.actualFee.value;
      && r.state == Finalized && r.rail == AP.X402 && identity.kind == AP.Native
      && r.id.key == "apn.merchant-native:" + proof.operationId && proof.reservedFee == r.amount
      && r.consumed == Some(proof.actualFee) && r.outcome == Some(FeeProofHash(proof))
    ensures 1 <= |r.registryVersion| <= 64 && r.registryVersion[0] !in "._-"
    ensures forall i :: 0 <= i < |r.registryVersion| ==>
      'a' <= r.registryVersion[i] <= 'z' || '0' <= r.registryVersion[i] <= '9' || r.registryVersion[i] in "._-"
  {
    var i :| 0 <= i < |rows| && rows[i] == r;
    assert ValidReservation(rows[i]);
  }

  lemma RunsStoreRows(codec: AP.Codec, identity: Identity, cs: seq<Command>)
    ensures ValidBucket(identity, Run(codec, identity, EMPTY, cs).rows)
  {
    RunKeepsSound(codec, identity, EMPTY, cs);
  }

  /** A completed command changes every total by exactly the change of the one row it addresses. */
  lemma OnlyItsRowCounts(codec: AP.Codec, identity: Identity, rows: Rows, c: Command, m: Measure)
    requires ValidBucket(identity, rows) && Apply(codec, identity, rows, c).Ok?
    ensures var a, before := Apply(codec, identity, rows, c).value, Find(rows, ReservationId(identity, KeyOf(c)));
      Total(m, a.rows) + (if before.Some? then Weight(m, before.value) else 0) == Total(m, rows) + Weight(m, a.record)
  {
    ApplyShape(codec, identity, rows, c);
    RowCounts(identity, rows, Apply(codec, identity, rows, c).value, c, m);
  }

  lemma RowCounts(identity: Identity, rows: Rows, a: Applied, c: Command, m: Measure)
    requires ValidBucket(identity, rows) && Shape(rows, a, c)
    ensures var before := Find(rows, a.record.id);
      Total(m, a.rows) + (if before.Some? then Weight(m, before.value) else 0) == Total(m, rows) + Weight(m, a.record)
  {
    if a.rows == rows + [a.record] && Creates(rows, a, c) {
      TotalAppend(m, rows, a.record);
    } else if a.rows == rows {
      FoundAt(rows, a.record);
    } else {
      var i :| 0 <= i < |rows| && a.rows == rows[i := a.record] && Rewrites(rows[i], a.record, c);
      FoundAt(rows, rows[i]);
      RewrittenCounts(rows, i, a, m);
    }
  }

  lemma RewrittenCounts(rows: Rows, i: nat, a: Applied, m: Measure)
    requires i < |rows| && a.rows == rows[i := a.record] && Find(rows, a.record.id) == Some(rows[i])
    ensures Total(m, a.rows) + Weight(m, Find(rows, a.record.id).value) == Total(m, rows) + Weight(m, a.record)
  {
    TotalUpdate(m, rows, i, a.record);
  }

  lemma FoundAt(rows: Rows, r: Reservation)
    requires r in rows && forall i, j :: 0 <= i < j < |rows| ==> rows[i].id != rows[j].id
    ensures FindIndex(rows, r.id).Some? && rows[FindIndex(rows, r.id).value] == r
  {
    var i :| 0 <= i < |rows| && rows[i] == r;
    assert rows[FindIndex(rows, r.id).value].id == rows[i].id;
  }

  // ---------------------------------------------------------------- transition

  /** The edges of a hold's life: a hold may be submitted, lose sight of its effect, settle, or be given back before
      one; after a submission it can still revert, and only an uncertain one can be found never submitted. */
  const LIFE_CYCLE: set<(State, State)> := {
    (Reserved, Submitted), (Reserved, UnknownFinality), (Reserved, Finalized), (Reserved, FailedBeforeEffect),
    (Reserved, ReleasedUnsubmitted),
    (Submitted, UnknownFinality), (Submitted, Finalized), (Submitted, FailedConfirmedRevert),
    (UnknownFinality, Finalized), (UnknownFinality, FailedConfirmedRevert), (UnknownFinality, ReleasedUnsubmitted)}

  /** Whether the caller's proofs go with the state asked for. */
  predicate ProofsFit(r: Reservation, input: TransitionInput) {
    && (input.state !in {Submitted, UnknownFinality} ==> input.outcome.Some?)
    && (input.consumed.Some? ==> input.state == FailedConfirmedRevert && input.consumed.value <= r.amount)
    && (input.effectAt.Some? ==> input.state == Finalized)
  }

  /** The outcome a row in this state carries. */
  function StoredOutcome(input: TransitionInput): Option<Outcome> {
    if input.state in {Submitted, UnknownFinality} then None else input.outcome
  }

  /** A transition succeeds if and only if it names a stored row with its own policy, in a state the caller expects,
      with the proofs its target needs, and either follows the life cycle or repeats what is stored. */
  lemma TransitionAnswers(identity: Identity, rows: Rows, input: TransitionInput)
    requires ValidBucket(identity, rows)
    ensures Transition(rows, input).Ok? <==>
      match Find(rows, input.id)
      case None => false
      case Some(r) =>
        && r.policyDigest == input.policyDigest && (input.expected.Some? ==> r.state in input.expected.value)
        && ProofsFit(r, input)
        && ((r.state, input.state) in LIFE_CYCLE
            || (r.state == input.state && r.outcome == StoredOutcome(input) && r.consumed == input.consumed))
  {
    var i := FindIndex(rows, input.id);
    if i.Some? && CheckTransition(rows[i.value], input).Ok? && Allowed(rows[i.value].state, input.state) {
      MovedIsValid(rows[i.value], input, BucketStamp(rows, input.now));
    }
  }

  /** The instant nearest to `proven` from `low` to `high`; `high` when none is proven. */
  predicate Nearest(proven: Option<int>, low: int, high: int, e: int) {
    && low <= e <= high
    && (proven.None? ==> e == high)
    && (proven.Some? && proven.value < low ==> e == low)
    && (proven.Some? && low <= proven.value <= high ==> e == proven.value)
    && (proven.Some? && high < proven.value ==> e == high)
  }

  /** A write's stamp: not before the clock nor anything stored, and one of them. */
  ghost predicate Stamped(rows: Rows, now: int, at: int) {
    && now <= at && (forall i :: 0 <= i < |rows| ==> rows[i].updatedAt <= at)
    && (at == now || exists i :: 0 <= i < |rows| && rows[i].updatedAt == at)
  }

  /** When the effect is stored as having happened: a finalization at the proven instant, moved into the span since the
      hold's last write; a proven consumption of a revert at the write; nothing else has an instant. */
  predicate EffectStored(old': Reservation, new': Reservation, input: TransitionInput) {
    match input.state
    case Finalized =>
      new'.effectAt.Some? && Nearest(input.effectAt, old'.updatedAt, new'.updatedAt, new'.effectAt.value)
    case FailedConfirmedRevert => new'.effectAt == (if input.consumed.Some? then Some(new'.updatedAt) else None)
    case _ => new'.effectAt == None
  }

  /** The row a move builds, field by field. */
  lemma MovedFields(rows: Rows, input: TransitionInput)
    requires Transition(rows, input).Ok? && Find(rows, input.id).value.state != input.state
    ensures var old', new' := Find(rows, input.id).value, Transition(rows, input).value.record;
      && new'.state == input.state && new'.outcome == StoredOutcome(input)
      && new'.consumed == (if input.consumed.Some? then input.consumed else old'.consumed)
      && new'.actualFee == old'.actualFee && new'.reservedAt == old'.reservedAt
      && SameHold(old', new') && Stamped(rows, input.now, new'.updatedAt) && EffectStored(old', new', input)
  {
    assert Find(rows, input.id).value in rows;
    StampIsClockOrStored(rows, input.now);
  }

  /** What a transition that moves its row stores; every other row stays. */
  lemma TransitionStores(identity: Identity, rows: Rows, input: TransitionInput)
    requires ValidBucket(identity, rows) && Transition(rows, input).Ok?
    requires Find(rows, input.id).value.state != input.state
    ensures var a, old' := Transition(rows, input).value, Find(rows, input.id).value;
      && Find(a.rows, input.id) == Some(a.record)
      && (forall id :: id != input.id ==> Find(a.rows, id) == Find(rows, id))
      && a.record.state == input.state && a.record.outcome == StoredOutcome(input)
      && a.record.consumed == (if input.consumed.Some? then input.consumed else old'.consumed)
      && a.record.actualFee == old'.actualFee && a.record.reservedAt == old'.reservedAt
      && SameHold(old', a.record) && Stamped(rows, input.now, a.record.updatedAt)
      && EffectStored(old', a.record, input)
  {
    MovedFields(rows, input);
    TransitionShape(identity, rows, TransitionCommand(input));
    StoredAlone(identity, rows, Transition(rows, input).value, TransitionCommand(input));
  }

  /** A completed command's row is stored under its id, and no other row changes. */
  lemma StoredAlone(identity: Identity, rows: Rows, a: Applied, c: Command)
    requires ValidBucket(identity, rows) && Shape(rows, a, c)
    requires ValidReservation(a.record) && a.record.id.identity == identity
    ensures Find(a.rows, a.record.id) == Some(a.record)
    ensures forall id :: id != a.record.id ==> Find(a.rows, id) == Find(rows, id)
  {
    ShapeKeepsBucket(identity, rows, a, c);
    AnswerIsStored(identity, rows, a, c);
    forall id | id != a.record.id ensures Find(a.rows, id) == Find(rows, id) {
      OtherRowsUntouched(identity, rows, a, c, id);
    }
  }

  /** A row that is asked to stay where it is stays as it is. */
  lemma TransitionReplays(identity: Identity, rows: Rows, input: TransitionInput)
    requires ValidBucket(identity, rows) && Transition(rows, input).Ok?
    requires Find(rows, input.id).value.state == input.state
    ensures Transition(rows, input).value.rows == rows
      && Find(rows, input.id) == Some(Transition(rows, input).value.record)
  {
  }

  /** How much of a hold is charged on a day after a move, and how much of it was spent on exactly that day. */
  function StillCharged(r: Reservation, input: TransitionInput, at: int, day: int): nat {
    if input.state in {Submitted, UnknownFinality} then r.amount
    else if day > Day(at) then 0
    else if input.state == Finalized then r.amount
    else if input.consumed.Some? then input.consumed.value else 0
  }

  function SpentBy(r: Reservation, input: TransitionInput, at: int, day: int): nat {
    if day != Day(at) then 0
    else if input.state == Finalized then r.amount
    else if input.consumed.Some? then input.consumed.value else 0
  }

  lemma MoveWeights(r: Reservation, next: Reservation, input: TransitionInput, day: int)
    requires ValidReservation(r) && ValidReservation(next) && SameHold(r, next) && ProofsFit(r, input)
    requires (r.state, input.state) in LIFE_CYCLE && next.state == input.state && EffectStored(r, next, input)
    requires next.consumed == (if input.consumed.Some? then input.consumed else r.consumed)
      && next.actualFee == r.actualFee
    ensures var at := if next.effectAt.Some? then next.effectAt.value else 0;
      && Charge(r, day) == r.amount && SpentOn(r, day) == 0
      && Charge(next, day) == StillCharged(r, input, at, day) && SpentOn(next, day) == SpentBy(r, input, at, day)
  {
    OpenRowCharges(r, day);
    if next.state in {Submitted, UnknownFinality} { OpenRowCharges(next, day); } else { ClosedRowCharges(next, day); }
  }

  /** A move frees the hold's amount and charges what is proven instead: everything on the effect's day for a
      finalization, the consumption for a revert, everything still for an open state, and nothing for a release. */
  lemma TransitionCharges(identity: Identity, rows: Rows, input: TransitionInput, day: int)
    requires ValidBucket(identity, rows) && input.id.identity == identity && Transition(rows, input).Ok?
    requires Find(rows, input.id).value.state != input.state
    ensures var a, r := Transition(rows, input).value, Find(rows, input.id).value;
      var at := if a.record.effectAt.Some? then a.record.effectAt.value else 0;
      && Usage(a.rows, day) + r.amount == Usage(rows, day) + StillCharged(r, input, at, day)
      && Total(SpendAt(day), a.rows) == Total(SpendAt(day), rows) + SpentBy(r, input, at, day)
  {
    var a, r := Transition(rows, input).value, Find(rows, input.id).value;
    assert r in rows;
    TransitionAnswers(identity, rows, input);
    MovedFields(rows, input);
    TransitionShape(identity, rows, TransitionCommand(input));
    MoveWeights(r, a.record, input, day);
    MovedCounts(identity, rows, a, TransitionCommand(input), r, day);
  }

  lemma MovedCounts(identity: Identity, rows: Rows, a: Applied, c: Command, r: Reservation, day: int)
    requires ValidBucket(identity, rows) && Shape(rows, a, c) && Find(rows, a.record.id) == Some(r)
    requires Charge(r, day) == r.amount && SpentOn(r, day) == 0
    ensures Usage(a.rows, day) + r.amount == Usage(rows, day) + Charge(a.record, day)
    ensures Total(SpendAt(day), a.rows) == Total(SpendAt(day), rows) + SpentOn(a.record, day)
  {
    RowCounts(identity, rows, a, c, UsageAt(day));
    RowCounts(identity, rows, a, c, SpendAt(day));
  }

  /** A finalization with an instant proven since the hold's last write spends the whole amount on that instant's own
      UTC day, and nothing on any other, however late it is recorded. */
  lemma ProvenDayIsCharged(identity: Identity, rows: Rows, input: TransitionInput, proven: int, day: int)
    requires ValidBucket(identity, rows) && input.id.identity == identity && Transition(rows, input).Ok?
    requires input.state == Finalized && input.effectAt == Some(proven) && Find(rows, input.id).value.state != Finalized
    requires Find(rows, input.id).value.updatedAt <= proven <= Transition(rows, input).value.record.updatedAt
    ensures var a, r := Transition(rows, input).value, Find(rows, input.id).value;
      Total(SpendAt(day), a.rows) == Total(SpendAt(day), rows) + (if day == Day(proven) then r.amount else 0)
  {
    MovedFields(rows, input);
    TransitionCharges(identity, rows, input, day);
  }

  // ---------------------------------------------------------------- reserve

  /** The row an evaluation found is spelled as the policy spells it. */
  lemma FoundIsCanonical(codec: AP.Codec, registry: AP.Registry, ch: AP.Chain, row: AP.Row)
    requires AP.ValidRegistry(codec, registry) && ch in registry.body.chains && row in ch.assets
    ensures row.kind.Native? <==> row.identifier.None?
    ensures AP.CanonicalIdentifier(codec, ch.family, row.kind, row.identifier) == Ok(row.identifier)
    ensures forall r: AP.Rail :: AP.RowCaps(registry.body.schema, row, r).Some? && r in row.rails ==>
      AP.RowCaps(registry.body.schema, row, r).value.daily <= MAX_UINT256
  {
    var i :| 0 <= i < |registry.body.chains| && registry.body.chains[i] == ch;
    assert AP.ValidChain(codec, registry.body.schema, registry.body.chains[i]);
    var j :| 0 <= j < |ch.assets| && ch.assets[j] == row;
    assert AP.ValidRow(codec, ch.family, registry.body.schema, ch.assets[j]);
  }

  /** On its row, a request that fits an unused day fits a used one if and only if the daily limit holds both. */
  lemma RowWeighsUsage(registry: AP.Registry, ch: AP.Chain, row: AP.Row, q: AP.Request, p: AP.Request)
    requires AP.EvaluateRow(registry, ch, row, q).Ok?
    requires p.rail == q.rail && p.mechanism == q.mechanism && p.amount == q.amount
    requires AP.RowCaps(registry.body.schema, row, q.rail).Some?
      && AP.RowCaps(registry.body.schema, row, q.rail).value.daily <= MAX_UINT256
    ensures var a, again := AP.EvaluateRow(registry, ch, row, q).value, AP.EvaluateRow(registry, ch, row, p);
      (again.Ok? <==> p.dailyUsage + q.amount <= a.caps.daily) && (again.Ok? ==> again.value.caps == a.caps)
  {
  }

  /** Asked again for the row it found, in the spelling the policy uses, the evaluator only weighs the usage. */
  lemma EvaluateAgain(codec: AP.Codec, registry: AP.Registry, q: AP.Request, usage: nat)
    requires AP.Evaluate(codec, registry, q).Ok?
    ensures var a := AP.Evaluate(codec, registry, q).value;
      var p := q.(dailyUsage := usage, chain := a.chain, identifier := a.row.identifier);
      && (AP.Evaluate(codec, registry, p).Ok? <==> usage + q.amount <= a.caps.daily)
      && (AP.Evaluate(codec, registry, p).Ok? ==> AP.Evaluate(codec, registry, p).value.caps == a.caps)
  {
    var ch, identifier, row := PM.EvaluateReached(codec, registry, q);
    PM.EvaluateReaches(codec, registry, q, ch, identifier, row);
    FoundIsCanonical(codec, registry, ch, row);
    var p := q.(dailyUsage := usage, chain := ch.chain, identifier := row.identifier);
    PM.EvaluateReaches(codec, registry, p, ch, row.identifier, row);
    RowWeighsUsage(registry, ch, row, q, p);
  }

  /** What the owner's policy says of a transfer on a day on which nothing is charged yet. */
  function OnUnusedDay(codec: AP.Codec, input: ReserveInput): Result<AP.Admission> {
    AP.Evaluate(codec, input.registry,
                AP.Request(input.chain, input.kind, input.identifier, input.rail, input.mechanism, input.amount, 0,
                           Day(input.now), Some(input.now)))
  }

  /** A reserve reaches its bucket if and only if its key is nobody else's and well formed, the policy admits the
      transfer on an unused day, and the account is one of the network's; it addresses the account's bucket of the
      policy's own asset. */
  lemma ReserveReaches(codec: AP.Codec, input: ReserveInput)
    ensures var listed := OnUnusedDay(codec, input);
      && (ReserveTarget(codec, input).Ok? <==>
            && !("apn.metamask-native:" <= input.key) && !("apn.cleanup85-native:" <= input.key)
            && 8 <= |input.key| <= 256 && (forall i :: 0 <= i < |input.key| ==> '!' <= input.key[i] <= '~')
            && listed.Ok? && codec.account(input.chain, input.account))
      && (ReserveTarget(codec, input).Ok? ==>
            ReserveTarget(codec, input).value ==
              (ReservationId(Identity(input.account, input.chain, input.kind, listed.value.row.identifier), input.key),
               listed.value))
  {
    if OnUnusedDay(codec, input).Ok? {
      AP.EvaluateBounds(codec, input.registry, PolicyRequest(input, 0));
    }
  }

  lemma DayHasRoom(codec: AP.Codec, rows: Rows, input: ReserveInput)
    requires ReserveTarget(codec, input).Ok?
    ensures var (id, initial) := ReserveTarget(codec, input).value;
      var checked := CheckDay(codec, rows, id, input);
      && (checked.Ok? <==> Usage(rows, Day(input.now)) + input.amount <= initial.caps.daily)
      && (checked.Ok? ==> checked.value.caps.daily == initial.caps.daily)
  {
    var q := PolicyRequest(input, 0);
    AP.EvaluateBounds(codec, input.registry, q);
    EvaluateAgain(codec, input.registry, q, Usage(rows, Day(input.now)));
  }

  /** Same terms: policy, version, rail and amount. */
  predicate SameTerms(r: Reservation, listed: AP.Admission) {
    r.policyDigest == listed.policyDigest && r.registryVersion == listed.registryVersion
    && r.rail == listed.rail && r.amount == listed.amount
  }

  /** Whether a reserve adds a charge: its key is new, or holds a failed row it explicitly retries. */
  predicate AddsCharge(rows: Rows, id: ReservationId, retry: bool) {
    Find(rows, id).None? || (retry && Find(rows, id).value.state == FailedBeforeEffect)
  }

  lemma HoldIsValid(codec: AP.Codec, input: ReserveInput, id: ReservationId, at: int)
    requires OnUnusedDay(codec, input).Ok?
    ensures var listed := OnUnusedDay(codec, input).value;
      ValidReservation(NewHold(id, listed.policyDigest, listed.registryVersion, listed.rail, listed.amount, at))
  {
    AP.EvaluateBounds(codec, input.registry, PolicyRequest(input, 0));
  }

  /** At its bucket, a reserve succeeds if and only if the key's row, if any, has the same terms, and, where it adds a
      charge, the day's usage and the amount fit the owner's daily limit. */
  lemma ReserveAnswers(codec: AP.Codec, rows: Rows, input: ReserveInput)
    requires ReserveTarget(codec, input).Ok?
    requires ValidBucket(ReserveTarget(codec, input).value.0.identity, rows)
    ensures var (id, listed) := ReserveTarget(codec, input).value;
      Reserve(codec, rows, id, listed, input).Ok? <==>
        && (Find(rows, id).Some? ==> SameTerms(Find(rows, id).value, listed))
        && (AddsCharge(rows, id, input.retryFailedBeforeEffect) ==>
              Usage(rows, Day(input.now)) + input.amount <= listed.caps.daily)
  {
    var (id, listed) := ReserveTarget(codec, input).value;
    ReserveReaches(codec, input);
    DayHasRoom(codec, rows, input);
    HoldIsValid(codec, input, id, BucketStamp(rows, input.now));
    CheckedAnswers(rows, id, listed, input.retryFailedBeforeEffect, input.now, CheckDay(codec, rows, id, input));
  }

  lemma CheckedAnswers(rows: Rows, id: ReservationId, listed: AP.Admission, retry: bool, now: int,
                       checked: Result<AP.Admission>)
    requires ValidBucket(id.identity, rows)
    requires ValidReservation(NewHold(id, listed.policyDigest, listed.registryVersion, listed.rail, listed.amount,
                                      BucketStamp(rows, now)))
    ensures ReserveChecked(rows, id, listed, retry, now, checked).Ok? <==>
      && (Find(rows, id).Some? ==> SameTerms(Find(rows, id).value, listed))
      && (AddsCharge(rows, id, retry) ==> checked.Ok?)
  {
  }

  /** The row a reserve leaves where it adds a charge: an open hold on the policy's terms, stamped now, which has no
      effect and no outcome; a retried row is that same row, held again. */
  predicate IsHeld(id: ReservationId, listed: AP.Admission, r: Reservation) {
    && r.id == id && SameTerms(r, listed) && r.state == Reserved && r.reservedAt == r.updatedAt
    && r.effectAt.None? && r.outcome.None? && r.actualFee.None? && r.consumed.None?
  }

  /** What a completed reserve stores: a new or reopened hold, or the row as it is. */
  lemma ReserveStores(rows: Rows, id: ReservationId, listed: AP.Admission, retry: bool, now: int,
                      checked: Result<AP.Admission>)
    requires ValidBucket(id.identity, rows) && ReserveChecked(rows, id, listed, retry, now, checked).Ok?
    ensures var a := ReserveChecked(rows, id, listed, retry, now, checked).value;
      if AddsCharge(rows, id, retry) then
        && IsHeld(id, listed, a.record) && Stamped(rows, now, a.record.updatedAt)
        && (if Find(rows, id).None? then a.rows == rows + [a.record]
            else a.rows == rows[FindIndex(rows, id).value := a.record])
        && checked.Ok? && a.dailyCap == checked.value.caps.daily && a.unchecked == 0
      else a.rows == rows && Some(a.record) == Find(rows, id) && a.dailyCap == a.unchecked == 0
  {
    StampIsClockOrStored(rows, now);
  }

  lemma NewHoldCounts(rows: Rows, r: Reservation, day: int)
    requires r.state == Reserved && r.effectAt.None?
    ensures Usage(rows + [r], day) == Usage(rows, day) + r.amount
    ensures Total(SpendAt(day), rows + [r]) == Total(SpendAt(day), rows)
  {
    TotalAppend(UsageAt(day), rows, r);
    TotalAppend(SpendAt(day), rows, r);
  }

  lemma ReopenedHoldCounts(rows: Rows, i: nat, r: Reservation, day: int)
    requires i < |rows| && ValidReservation(rows[i]) && rows[i].state == FailedBeforeEffect
    requires r.state == Reserved && r.effectAt.None?
    ensures Usage(rows[i := r], day) == Usage(rows, day) + r.amount
    ensures Total(SpendAt(day), rows[i := r]) == Total(SpendAt(day), rows)
  {
    TotalUpdate(UsageAt(day), rows, i, r);
    TotalUpdate(SpendAt(day), rows, i, r);
  }

  /** A reserve that adds a charge raises the usage of every day by exactly its amount, and spends nothing yet. */
  lemma ReserveCharges(rows: Rows, id: ReservationId, listed: AP.Admission, retry: bool, now: int,
                       checked: Result<AP.Admission>, day: int)
    requires ValidBucket(id.identity, rows) && ReserveChecked(rows, id, listed, retry, now, checked).Ok?
    requires AddsCharge(rows, id, retry)
    ensures var a := ReserveChecked(rows, id, listed, retry, now, checked).value;
      && Usage(a.rows, day) == Usage(rows, day) + listed.amount
      && Total(SpendAt(day), a.rows) == Total(SpendAt(day), rows)
  {
    var a := ReserveChecked(rows, id, listed, retry, now, checked).value;
    ReserveStores(rows, id, listed, retry, now, checked);
    if Find(rows, id).None? {
      NewHoldCounts(rows, a.record, day);
    } else {
      ReopenedHoldCounts(rows, FindIndex(rows, id).value, a.record, day);
    }
  }

  // ---------------------------------------------------------------- the owner-cap path, releases, cancellations, fees

  /** An owner-cap reserve succeeds if and only if it is an x402 payment of a positive amount within its own request's
      cap, under a well-formed key that is new or holds the same terms; it then charges its amount on every day. */
  lemma OwnerCapAnswers(rows: Rows, input: OwnerCapInput)
    requires ValidBucket(input.identity, rows)
    ensures var id := ReservationId(input.identity, input.key);
      ReserveWithinOwnerCap(rows, input).Ok? <==>
        && input.rail == AP.X402 && 0 < input.amount <= input.maximum <= MAX_UINT256
        && 8 <= |input.key| <= 256 && (forall i :: 0 <= i < |input.key| ==> '!' <= input.key[i] <= '~')
        && match Find(rows, id)
           case None => AP.IsVersion(input.registryVersion)
           case Some(r) => r.policyDigest == input.policyDigest && r.registryVersion == input.registryVersion
                           && r.rail == input.rail && r.amount == input.amount
  {
  }

  lemma OwnerCapCharges(rows: Rows, input: OwnerCapInput, day: int)
    requires ValidBucket(input.identity, rows) && ReserveWithinOwnerCap(rows, input).Ok?
    ensures var a, id := ReserveWithinOwnerCap(rows, input).value, ReservationId(input.identity, input.key);
      && (Find(rows, id).Some? ==> a.rows == rows && Some(a.record) == Find(rows, id))
      && (Find(rows, id).None? ==>
            && a.rows == rows + [a.record] && a.record.state == Reserved && a.record.id == id
            && a.record.amount == input.amount && Stamped(rows, input.now, a.record.updatedAt)
            && Usage(a.rows, day) == Usage(rows, day) + input.amount
            && Total(SpendAt(day), a.rows) == Total(SpendAt(day), rows))
  {
    var a := ReserveWithinOwnerCap(rows, input).value;
    StampIsClockOrStored(rows, input.now);
    if Find(rows, ReservationId(input.identity, input.key)).None? { NewHoldCounts(rows, a.record, day); }
  }

  /** A row given back: its terms kept, the proof stored, no instant of effect, stamped now. */
  ghost predicate GivenBack(rows: Rows, r: Reservation, next: Reservation, to: State, outcome: Outcome, now: int) {
    && next == r.(state := to, updatedAt := next.updatedAt, outcome := Some(outcome), effectAt := None)
    && Stamped(rows, now, next.updatedAt)
  }

  /** Giving back an open hold takes exactly its amount off every day, and spends nothing. */
  lemma GivenBackCounts(rows: Rows, i: nat, next: Reservation, day: int)
    requires i < |rows| && ValidReservation(rows[i]) && rows[i].state == Reserved
    requires next.state in {FailedBeforeEffect, ReleasedUnsubmitted} && next.effectAt.None?
    ensures Usage(rows[i := next], day) + rows[i].amount == Usage(rows, day)
    ensures Total(SpendAt(day), rows[i := next]) == Total(SpendAt(day), rows)
  {
    TotalUpdate(UsageAt(day), rows, i, next);
    TotalUpdate(SpendAt(day), rows, i, next);
  }

  /** An attempt that never reached a private key is released if and only if its hold is a direct one, still reserved,
      and exactly the row the caller expects; then every day gets its amount back. */
  lemma ReleaseMeaning(identity: Identity, rows: Rows, expected: Reservation, now: int, outcome: Outcome, day: int)
    requires ValidBucket(identity, rows)
    ensures var r := ReleaseDirectReserved(rows, expected, now, outcome);
      && (r.Ok? <==> expected in rows && expected.rail == AP.Direct && expected.state == Reserved)
      && (r.Ok? ==>
            && GivenBack(rows, expected, r.value.record, FailedBeforeEffect, outcome, now)
            && Find(r.value.rows, expected.id) == Some(r.value.record)
            && Usage(r.value.rows, day) + expected.amount == Usage(rows, day)
            && Total(SpendAt(day), r.value.rows) == Total(SpendAt(day), rows))
  {
    if expected in rows { FoundAt(rows, expected); }
    var r := ReleaseDirectReserved(rows, expected, now, outcome);
    if r.Ok? {
      StampIsClockOrStored(rows, now);
      GivenBackCounts(rows, FindIndex(rows, expected.id).value, r.value.record, day);
      ReleaseShape(rows, ReleaseCommand(expected, now, outcome));
      StoredAlone(identity, rows, r.value, ReleaseCommand(expected, now, outcome));
    }
  }

  predicate Over(s: string, alphabet: string) { forall i :: 0 <= i < |s| ==> s[i] in alphabet }

  /** Only a Permit2 production lease may be cancelled: its key is the namespace and 64 lower-case hexadecimal digits,
      for an x402 payment of an EVM token by its 20-byte address. */
  lemma PermitLeaseMeaning(input: CancelInput)
    ensures IsPermit2Lease(input) <==>
      && "x402-permit2-production.v2:" <= input.key && |input.key| == 91 && Over(input.key[27..], "0123456789abcdef")
      && "eip155:" <= input.identity.chain && 8 <= |input.identity.chain| <= 23 && input.identity.chain[7] != '0'
      && Over(input.identity.chain[7..], "0123456789")
      && input.identity.kind == AP.Token && input.identity.identifier.Some?
      && "0x" <= input.identity.identifier.value && |input.identity.identifier.value| == 42
      && Over(input.identity.identifier.value[2..], "0123456789abcdefABCDEF")
      && input.rail == AP.X402 && AP.IsVersion(input.registryVersion)
  {
    assert |"x402-permit2-production.v2:"| == 27;
    forall c: char
      ensures (IsDigit(c) <==> c in "0123456789") && (IsLowerHex(c) <==> c in "0123456789abcdef")
        && (IsHex(c) <==> c in "0123456789abcdefABCDEF")
    {
      Alphabets(c);
    }
    if |input.key| == 91 { OverTail(input.key, 27, "0123456789abcdef"); }
    if |input.identity.chain| >= 8 { OverTail(input.identity.chain, 7, "0123456789"); }
    if input.identity.identifier.Some? && |input.identity.identifier.value| == 42 {
      OverTail(input.identity.identifier.value, 2, "0123456789abcdefABCDEF");
    }
  }

  lemma OverTail(s: string, k: nat, alphabet: string)
    requires k <= |s|
    ensures Over(s[k..], alphabet) <==> forall i :: k <= i < |s| ==> s[i] in alphabet
  {
    if Over(s[k..], alphabet) {
      forall i | k <= i < |s| ensures s[i] in alphabet { assert s[k..][i - k] in alphabet; }
    }
  }

  lemma Alphabets(c: char)
    ensures IsDigit(c) <==> c in "0123456789"
    ensures IsLowerHex(c) <==> c in "0123456789abcdef"
    ensures IsHex(c) <==> c in "0123456789abcdefABCDEF"
  {
    var digits := "0123456789abcdefABCDEF";
    if '0' <= c <= '9' {
      assert c == "0123456789"[(c - '0') as int] == "0123456789abcdef"[(c - '0') as int] == digits[(c - '0') as int];
    }
    if 'a' <= c <= 'f' {
      assert c == "0123456789abcdef"[10 + (c - 'a') as int] == digits[10 + (c - 'a') as int];
    }
    if 'A' <= c <= 'F' { assert c == digits[16 + (c - 'A') as int]; }
  }

  /** A cancellation of a well-formed lease succeeds if and only if its key is new, or holds the same terms and is
      either still reserved or already cancelled with the same proof. */
  lemma CancelAnswers(rows: Rows, input: CancelInput)
    requires ValidBucket(input.identity, rows)
    ensures Cancel(rows, input).Ok? <==>
      && IsPermit2Lease(input) && IsIdempotencyKey(input.key) && 0 < input.amount <= MAX_UINT256
      && match Find(rows, ReservationId(input.identity, input.key))
         case None => true
         case Some(r) =>
           && IsReplay(r, input.policyDigest, input.registryVersion, input.rail, input.amount)
           && (r.state == Reserved || (r.state == ReleasedUnsubmitted && r.outcome == Some(input.outcome)))
  {
  }

  lemma CancelFields(rows: Rows, input: CancelInput)
    requires ValidBucket(input.identity, rows) && Cancel(rows, input).Ok?
    ensures var a, before := Cancel(rows, input).value, Find(rows, ReservationId(input.identity, input.key));
      && a.record.state == ReleasedUnsubmitted && a.record.outcome == Some(input.outcome)
      && a.record.amount == input.amount && a.record.effectAt.None?
      && (before.None? ==> a.rows == rows + [a.record] && Stamped(rows, input.now, a.record.updatedAt))
      && (before.Some? && before.value.state == Reserved ==>
            GivenBack(rows, before.value, a.record, ReleasedUnsubmitted, input.outcome, input.now))
      && (before.Some? && before.value.state != Reserved ==> a.rows == rows)
  {
    StampIsClockOrStored(rows, input.now);
  }

  /** It leaves a released row with the proof under its key: a tombstone where there was none, the open hold given back,
      or the row as it was; only a hold given back changes any day's usage, by exactly its amount. */
  lemma CancelMeaning(rows: Rows, input: CancelInput, day: int)
    requires ValidBucket(input.identity, rows) && Cancel(rows, input).Ok?
    ensures var a, before := Cancel(rows, input).value, Find(rows, ReservationId(input.identity, input.key));
      var freed := if before.Some? && before.value.state == Reserved then before.value.amount else 0;
      && Find(a.rows, ReservationId(input.identity, input.key)) == Some(a.record)
      && a.record.state == ReleasedUnsubmitted && a.record.outcome == Some(input.outcome)
      && (before.None? ==> a.rows == rows + [a.record] && a.record.amount == input.amount)
      && (before.Some? && before.value.state == Reserved ==>
            GivenBack(rows, before.value, a.record, ReleasedUnsubmitted, input.outcome, input.now))
      && (before.Some? && before.value.state != Reserved ==> a.rows == rows)
      && Usage(a.rows, day) + freed == Usage(rows, day)
      && Total(SpendAt(day), a.rows) == Total(SpendAt(day), rows)
  {
    CancelFields(rows, input);
    CancelShape(rows, CancelCommand(input));
    StoredAlone(input.identity, rows, Cancel(rows, input).value, CancelCommand(input));
    CancelCounts(rows, input, day);
  }

  lemma CancelCounts(rows: Rows, input: CancelInput, day: int)
    requires ValidBucket(input.identity, rows) && Cancel(rows, input).Ok?
    ensures var a, before := Cancel(rows, input).value, Find(rows, ReservationId(input.identity, input.key));
      var freed := if before.Some? && before.value.state == Reserved then before.value.amount else 0;
      && Usage(a.rows, day) + freed == Usage(rows, day)
      && Total(SpendAt(day), a.rows) == Total(SpendAt(day), rows)
  {
    var a, i := Cancel(rows, input).value, FindIndex(rows, ReservationId(input.identity, input.key));
    if i.None? {
      TotalAppend(UsageAt(day), rows, a.record);
      TotalAppend(SpendAt(day), rows, a.record);
    } else if rows[i.value].state == Reserved {
      GivenBackCounts(rows, i.value, a.record, day);
    }
  }

  /** A proven merchant fee settles if and only if its hold is an x402 one under the same policy, holding exactly the
      fee that was reserved and at least the fee paid, and is submitted or uncertain, or settled by the same proof
      already. */
  lemma SettleAnswers(rows: Rows, input: SettleInput)
    requires ValidBucket(MerchantIdentity(input.account), rows)
    ensures SettleMerchant(rows, input).Ok? <==>
      match Find(rows, ReservationId(Identity(input.account, "eip155:4326", AP.Native, None),
                                     "apn.merchant-native:" + input.proof.operationId))
      case None => false
      case Some(r) =>
        && r.rail == AP.X402 && r.policyDigest == input.policyDigest && r.amount == input.proof.reservedFee
        && input.proof.actualFee <= r.amount
        && (r.state in {Submitted, UnknownFinality}
            || (r.state == Finalized && r.outcome == Some(FeeProofHash(input.proof))
               && r.actualFee == Some(input.proof)))
  {
  }

  lemma SettleFields(rows: Rows, input: SettleInput, i: nat)
    requires SettleMerchant(rows, input).Ok? && i < |rows| && rows[i].state != Finalized
    requires FindIndex(rows,
                       ReservationId(MerchantIdentity(input.account), MERCHANT_NAMESPACE + input.proof.operationId)) ==
                         Some(i)
    ensures var a := SettleMerchant(rows, input).value;
      && a.rows == rows[i := a.record] && ValidReservation(a.record) && Open(rows[i].state)
      && a.record.state == Finalized && a.record.actualFee == Some(input.proof) && SameHold(rows[i], a.record)
      && a.record.consumed == Some(input.proof.actualFee)
      && Stamped(rows, input.now, a.record.updatedAt) && a.record.effectAt == Some(a.record.updatedAt)
  {
    StampIsClockOrStored(rows, input.now);
  }

  /** It then spends the fee paid, and only that, on the day it is recorded, and frees the rest of the hold. */
  lemma SettleMeaning(rows: Rows, input: SettleInput, day: int)
    requires ValidBucket(MerchantIdentity(input.account), rows) && SettleMerchant(rows, input).Ok?
    ensures var a, key := SettleMerchant(rows, input).value, "apn.merchant-native:" + input.proof.operationId;
      var before := Find(rows, ReservationId(MerchantIdentity(input.account), key)).value;
      if before.state == Finalized then a.rows == rows && a.record == before
      else
        && a.record.state == Finalized && a.record.actualFee == Some(input.proof) && SameHold(before, a.record)
        && Stamped(rows, input.now, a.record.updatedAt) && a.record.effectAt == Some(a.record.updatedAt)
        && Usage(a.rows, day) + before.amount ==
             Usage(rows, day) + (if day <= Day(a.record.updatedAt) then input.proof.actualFee else 0)
        && Total(SpendAt(day), a.rows) ==
             Total(SpendAt(day), rows) + (if day == Day(a.record.updatedAt) then input.proof.actualFee else 0)
  {
    var a, key := SettleMerchant(rows, input).value, "apn.merchant-native:" + input.proof.operationId;
    var i := FindIndex(rows, ReservationId(MerchantIdentity(input.account), key)).value;
    if rows[i].state != Finalized {
      SettleFields(rows, input, i);
      SettledCounts(rows, i, a.record, input.proof.actualFee, day);
    }
  }

  lemma SettledCounts(rows: Rows, i: nat, next: Reservation, fee: nat, day: int)
    requires i < |rows| && ValidReservation(rows[i]) && Open(rows[i].state) && ValidReservation(next)
    requires next.state == Finalized && next.consumed == Some(fee) && next.effectAt == Some(next.updatedAt)
    ensures Usage(rows[i := next], day) + rows[i].amount ==
      Usage(rows, day) + (if day <= Day(next.updatedAt) then fee else 0)
    ensures Total(SpendAt(day), rows[i := next]) ==
      Total(SpendAt(day), rows) + (if day == Day(next.updatedAt) then fee else 0)
  {
    OpenRowCharges(rows[i], day);
    ClosedRowCharges(next, day);
    TotalUpdate(UsageAt(day), rows, i, next);
    TotalUpdate(SpendAt(day), rows, i, next);
  }
}
