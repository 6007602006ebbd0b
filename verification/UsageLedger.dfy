/** The durable ledger shared by every money rail: one bucket of reservations per account, network and asset. Each
    method is one section under its bucket lock. */
module UsageLedger {
  import opened Basics
  import AP = AssetPolicy
  import opened UsageRecord
  import opened UsageBucket
  import opened UsageBucketProofs

  type Buckets = map<Identity, Rows>

  function BucketOf(buckets: Buckets, identity: Identity): Rows {
    if identity in buckets then buckets[identity] else []
  }

  ghost predicate ValidBuckets(buckets: Buckets) {
    forall identity | identity in buckets :: ValidBucket(identity, buckets[identity])
  }

  /** `identity` now holds `rows` and no other bucket changed. */
  ghost predicate OnlyBucket(before: Buckets, after: Buckets, identity: Identity, rows: Rows) {
    forall other :: BucketOf(after, other) == if other == identity then rows else BucketOf(before, other)
  }

  /** The call answered and wrote exactly what `applied` says for its bucket; a refusal writes nothing. */
  ghost predicate Performed(before: Buckets, after: Buckets, identity: Identity, applied: Result<Applied>,
                            answer: Result<Reservation>)
  {
    match applied
    case Err(e) => answer == Err(e) && after == before
    case Ok(a) => answer == Ok(a.record) && OnlyBucket(before, after, identity, a.rows)
  }

  /** The row a call answers with is the one now stored under its id. */
  ghost predicate Stored(after: Buckets, answer: Result<Reservation>) {
    answer.Ok? ==> Find(BucketOf(after, answer.value.id.identity), answer.value.id) == Some(answer.value)
  }

  lemma PerformedKeepsBuckets(codec: AP.Codec, before: Buckets, after: Buckets, identity: Identity, c: Command,
                              answer: Result<Reservation>)
    requires ValidBuckets(before)
      && Performed(before, after, identity, Apply(codec, identity, BucketOf(before, identity), c), answer)
    ensures ValidBuckets(after) && Stored(after, answer)
  {
    var r := Apply(codec, identity, BucketOf(before, identity), c);
    if r.Ok? {
      ApplyShape(codec, identity, BucketOf(before, identity), c);
      ShapeKeepsBucket(identity, BucketOf(before, identity), r.value, c);
      AnswerIsStored(identity, BucketOf(before, identity), r.value, c);
      forall other | other in after ensures ValidBucket(other, after[other]) {
        assert BucketOf(after, other) == after[other];
      }
    }
  }

  class AssetUsageLedger {
    const codec: AP.Codec
    var buckets: Buckets

    ghost predicate Valid()
      reads this
    {
      ValidBuckets(buckets)
    }

    constructor (codec: AP.Codec)
      ensures Valid() && this.codec == codec && buckets == map[]
    {
      this.codec := codec;
      buckets := map[];
    }

    /** Charge a new hold, reopen a failed one, or replay a stored one. */
    method Reserve(input: ReserveInput) returns (answer: Result<Reservation>)
      requires Valid()
      modifies this
      ensures Valid() && Stored(buckets, answer)
      ensures var target := ReserveTarget(codec, input);
        match target
        case Err(e) => answer == Err(e) && buckets == old(buckets)
        case Ok((id, initial)) =>
          Performed(old(buckets), buckets, id.identity,
                    UsageBucket.Reserve(codec, BucketOf(old(buckets), id.identity), id, initial, input), answer)
    {
      var target := ReserveTarget(codec, input);
      if target.Err? { return Err(target.error); }
      var (id, initial) := target.value;
      var rows := BucketOf(buckets, id.identity);
      answer := ReserveUnderLock(rows, id, initial, input);
      PerformedKeepsBuckets(codec, old(buckets), buckets, id.identity, ReserveCommand(input), answer);
    }

    method ReserveUnderLock(rows: Rows, id: ReservationId, initial: AP.Admission, input: ReserveInput)
      returns (answer: Result<Reservation>)
      requires Valid() && rows == BucketOf(buckets, id.identity)
      modifies this
      ensures Performed(old(buckets), buckets, id.identity, UsageBucket.Reserve(codec, rows, id, initial, input),
                        answer)
    {
      var existing := FindIndex(rows, id);
      if existing.Some? {
        var r := rows[existing.value];
        if !IsReplay(r, initial.policyDigest, initial.registryVersion, initial.rail, initial.amount) {
          return Err(OperationBlocked);
        }
        if !input.retryFailedBeforeEffect || r.state != FailedBeforeEffect { return Ok(r); }
      }
      var stamp := BucketStamp(rows, input.now);
      var checked := CheckDayUnderLock(rows, id, input);
      if checked.Err? { return Err(checked.error); }
      var body := NewHold(id, initial.policyDigest, initial.registryVersion, initial.rail, initial.amount, stamp);
      if existing.Some? {
        body := rows[existing.value].(state := Reserved, reservedAt := stamp, updatedAt := stamp, effectAt := None,
                                      outcome := None);
      }
      var sealed := Seal(body);
      if sealed.Err? { return Err(sealed.error); }
      Write(rows, existing, sealed.value);
      return Ok(sealed.value);
    }

    method CheckDayUnderLock(rows: Rows, id: ReservationId, input: ReserveInput) returns (checked: Result<AP.Admission>)
      requires ValidBucket(id.identity, rows)
      ensures checked == CheckDay(codec, rows, id, input)
    {
      var usage := SumUsage(rows, input.now);
      if usage.Err? { return Err(usage.error); }
      checked := AP.Evaluate(codec, input.registry,
        PolicyRequest(input, usage.value).(chain := id.identity.chain, identifier := id.identity.identifier));
    }

    /** `writeJson`: replace the row stored under this id, or create it. */
    method Write(rows: Rows, at: Option<nat>, r: Reservation)
      requires rows == BucketOf(buckets, r.id.identity)
      requires at.Some? ==> at.value < |rows|
      modifies this
      ensures OnlyBucket(old(buckets), buckets, r.id.identity, if at.Some? then rows[at.value := r] else rows + [r])
    {
      buckets := buckets[r.id.identity := if at.Some? then rows[at.value := r] else rows + [r]];
    }

    /** The local x402 path: charged to the shared usage, checked only against a per-request cap. */
    method ReserveWithinOwnerCap(input: OwnerCapInput) returns (answer: Result<Reservation>)
      requires Valid()
      modifies this
      ensures Valid() && Stored(buckets, answer)
      ensures Performed(old(buckets), buckets, input.identity,
                        UsageBucket.ReserveWithinOwnerCap(BucketOf(old(buckets), input.identity), input), answer)
    {
      var rows := BucketOf(buckets, input.identity);
      var applied := UsageBucket.ReserveWithinOwnerCap(rows, input);
      answer := Store(input.identity, applied);
      PerformedKeepsBuckets(codec, old(buckets), buckets, input.identity, OwnerCapCommand(input), answer);
    }

    /** Write a computed outcome: nothing on a refusal or a replay, otherwise the bucket's new rows. */
    method Store(identity: Identity, applied: Result<Applied>) returns (answer: Result<Reservation>)
      modifies this
      ensures Performed(old(buckets), buckets, identity, applied, answer)
    {
      if applied.Err? { return Err(applied.error); }
      if applied.value.rows != BucketOf(buckets, identity) {
        buckets := buckets[identity := applied.value.rows];
      }
      return Ok(applied.value.record);
    }

    /** Move one hold forward; a proven effect instant may backdate the charge, never before the hold's last write. */
    method Transition(input: TransitionInput) returns (answer: Result<Reservation>)
      requires Valid()
      modifies this
      ensures Valid() && Stored(buckets, answer)
      ensures Performed(old(buckets), buckets, input.id.identity,
                        UsageBucket.Transition(BucketOf(old(buckets), input.id.identity), input), answer)
    {
      answer := TransitionUnderLock(input);
      PerformedKeepsBuckets(codec, old(buckets), buckets, input.id.identity, TransitionCommand(input), answer);
    }

    method TransitionUnderLock(input: TransitionInput) returns (answer: Result<Reservation>)
      requires Valid()
      modifies this
      ensures Performed(old(buckets), buckets, input.id.identity,
                        UsageBucket.Transition(BucketOf(old(buckets), input.id.identity), input), answer)
    {
      if input.expected == Some({}) { return Err(InvalidInput); }
      var rows := BucketOf(buckets, input.id.identity);
      var index := FindIndex(rows, input.id);
      if index.None? { return Err(OperationBlocked); }
      var current := rows[index.value];
      var checked := CheckTransition(current, input);
      if checked.Err? { return Err(checked.error); }
      var stamp, outcome := BucketStamp(rows, input.now), Outcomes(input);
      if current.state == input.state {
        if current.outcome != outcome || current.consumed != input.consumed { return Err(OperationBlocked); }
        return Ok(current);
      }
      if !Allowed(current.state, input.state) { return Err(OperationBlocked); }
      var next := current.(state := input.state, updatedAt := stamp, outcome := outcome, effectAt := None);
      if input.state == Finalized {
        next := next.(effectAt := Some(ClampEffect(input.effectAt, current.updatedAt, stamp)));
      } else if input.consumed.Some? {
        next := next.(effectAt := Some(stamp));
      }
      if input.consumed.Some? { next := next.(consumed := input.consumed); }
      assert next == Moved(current, input, stamp);
      var sealed := Seal(next);
      if sealed.Err? { return Err(sealed.error); }
      Write(rows, index, sealed.value);
      return Ok(sealed.value);
    }

    /** Close an attempt that never reached a private key; the outcome was made durable under the same lock. */
    method ReleaseDirectReservedAfter(expected: Reservation, now: int, outcome: Outcome)
      returns (answer: Result<Reservation>)
      requires Valid()
      modifies this
      ensures Valid() && Stored(buckets, answer)
      ensures Performed(old(buckets), buckets, expected.id.identity,
                        ReleaseDirectReserved(BucketOf(old(buckets), expected.id.identity), expected, now, outcome),
                        answer)
    {
      var identity := expected.id.identity;
      answer := Store(identity, ReleaseDirectReserved(BucketOf(buckets, identity), expected, now, outcome));
      PerformedKeepsBuckets(codec, old(buckets), buckets, identity, ReleaseCommand(expected, now, outcome), answer);
    }

    method CancelUnsubmittedReservation(input: CancelInput) returns (answer: Result<Reservation>)
      requires Valid()
      modifies this
      ensures Valid() && Stored(buckets, answer)
      ensures Performed(old(buckets), buckets, input.identity, Cancel(BucketOf(old(buckets), input.identity), input),
                        answer)
    {
      answer := Store(input.identity, Cancel(BucketOf(buckets, input.identity), input));
      PerformedKeepsBuckets(codec, old(buckets), buckets, input.identity, CancelCommand(input), answer);
    }

    method SettleMerchantNativeActualFee(input: SettleInput) returns (answer: Result<Reservation>)
      requires Valid()
      modifies this
      ensures Valid() && Stored(buckets, answer)
      ensures var identity := MerchantIdentity(input.account);
        Performed(old(buckets), buckets, identity, SettleMerchant(BucketOf(old(buckets), identity), input), answer)
    {
      var identity := MerchantIdentity(input.account);
      answer := Store(identity, SettleMerchant(BucketOf(buckets, identity), input));
      PerformedKeepsBuckets(codec, old(buckets), buckets, identity, SettleCommand(input), answer);
    }

    /** The day's total and one reservation, read from the same locked bucket. */
    method UsageWithReservation(identity: Identity, id: ReservationId, now: int)
      returns (usage: Result<nat>, reservation: Option<Reservation>)
      requires Valid()
      ensures usage == UsageResult(BucketOf(buckets, identity), now)
      ensures reservation == Find(BucketOf(buckets, identity), id)
    {
      var rows := BucketOf(buckets, identity);
      usage := SumUsage(rows, now);
      reservation := Find(rows, id);
    }
  }
}
