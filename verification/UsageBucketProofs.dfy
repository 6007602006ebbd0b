/** What every run of ledger commands keeps: bucket integrity, row life cycles and the owner's daily cap. */
module UsageBucketProofs {
  import opened Basics
  import AP = AssetPolicy
  import opened UsageRecord
  import opened UsageBucket

  // ---------------------------------------------------------------- the shape of one completed command

  /** The terms of a hold never change. */
  predicate SameHold(old': Reservation, new': Reservation) {
    && new'.id == old'.id && new'.policyDigest == old'.policyDigest && new'.registryVersion == old'.registryVersion
    && new'.rail == old'.rail && new'.amount == old'.amount && old'.updatedAt <= new'.updatedAt
  }

  /** A move along the state machine; whatever instant a caller claims to have proven, the effect is stored no earlier
      than the hold's last write and no later than this one. */
  predicate Moves(old': Reservation, new': Reservation) {
    && Allowed(old'.state, new'.state)
    && (new'.effectAt.Some? ==> old'.updatedAt <= new'.effectAt.value <= new'.updatedAt)
  }

  /** The one way out of failed-before-effect: an explicit retry under the row's own key. */
  predicate Reopens(old': Reservation, new': Reservation, c: Command) {
    && old'.state == FailedBeforeEffect && new'.state == Reserved
    && c.ReserveCommand? && c.reserve.retryFailedBeforeEffect && c.reserve.key == old'.id.key
  }

  predicate Rewrites(old': Reservation, new': Reservation, c: Command) {
    SameHold(old', new') && ((Moves(old', new') && !c.ReserveCommand?) || Reopens(old', new', c))
  }

  /** A new row is a tombstone, or a hold: one a reserve checked, or one whose whole amount counts as unchecked. */
  predicate Creates(rows: Rows, a: Applied, c: Command) {
    && FindIndex(rows, a.record.id).None?
    && match c
       case ReserveCommand(_) => a.record.state == Reserved
       case OwnerCapCommand(_) => a.record.state == Reserved && a.unchecked == a.record.amount
       case _ => a.record.state == ReleasedUnsubmitted
  }

  /** A reserve that writes fits what the clock's day already charges, plus its own amount, under the cap it names. */
  predicate Checks(rows: Rows, a: Applied, now: int) {
    now <= a.record.updatedAt && Usage(rows, Day(now)) + a.record.amount <= a.dailyCap
  }

  /** The three shapes of a completed command: nothing written, one row rewritten, one new row created. */
  ghost predicate Shape(rows: Rows, a: Applied, c: Command) {
    && (|| (a.rows == rows && a.record in rows && a.dailyCap == a.unchecked == 0)
        || (exists i :: 0 <= i < |rows| && a.rows == rows[i := a.record] && Rewrites(rows[i], a.record, c))
        || (a.rows == rows + [a.record] && Creates(rows, a, c)))
    && (c.ReserveCommand? && a.rows != rows ==> Checks(rows, a, c.reserve.now))
  }

  lemma ShapeOf(rows: Rows, a: Applied, c: Command, i: nat)
    requires i < |rows| && a.rows == rows[i := a.record] && Rewrites(rows[i], a.record, c)
    requires c.ReserveCommand? ==> Checks(rows, a, c.reserve.now)
    ensures Shape(rows, a, c)
  {
  }

  /** The day's check, as the evaluator makes it, is exactly "usage plus amount within the daily limit". */
  lemma CheckDayBounds(codec: AP.Codec, rows: Rows, id: ReservationId, input: ReserveInput)
    requires CheckDay(codec, rows, id, input).Ok?
    ensures Usage(rows, Day(input.now)) + input.amount <= CheckDay(codec, rows, id, input).value.caps.daily
  {
    var usage := UsageResult(rows, input.now).value;
    AP.EvaluateBounds(codec, input.registry,
                      PolicyRequest(input, usage).(chain := id.identity.chain, identifier := id.identity.identifier));
  }

  lemma ReserveShape(rows: Rows, id: ReservationId, initial: AP.Admission, c: Command, checked: Result<AP.Admission>)
    requires c.ReserveCommand? && id.key == c.reserve.key
    requires checked.Ok? ==> Usage(rows, Day(c.reserve.now)) + initial.amount <= checked.value.caps.daily
    requires ReserveChecked(rows, id, initial, c.reserve.retryFailedBeforeEffect, c.reserve.now, checked).Ok?
    ensures var a := ReserveChecked(rows, id, initial, c.reserve.retryFailedBeforeEffect, c.reserve.now, checked).value;
      Shape(rows, a, c) && (a.rows != rows ==> ValidReservation(a.record)) && a.record.id == id
  {
    var a := ReserveChecked(rows, id, initial, c.reserve.retryFailedBeforeEffect, c.reserve.now, checked).value;
    var i := FindIndex(rows, id);
    if a.rows != rows {
      assert Checks(rows, a, c.reserve.now);
      if i.Some? {
        assert Reopens(rows[i.value], a.record, c);
        ShapeOf(rows, a, c, i.value);
      } else {
        assert Creates(rows, a, c);
      }
    }
  }

  lemma TransitionShape(identity: Identity, rows: Rows, c: Command)
    requires ValidBucket(identity, rows) && c.TransitionCommand? && Transition(rows, c.transition).Ok?
    ensures var a := Transition(rows, c.transition).value;
      Shape(rows, a, c) && ValidReservation(a.record) && a.record.id == c.transition.id
  {
    var a := Transition(rows, c.transition).value;
    if a.rows != rows { ShapeOf(rows, a, c, FindIndex(rows, c.transition.id).value); }
  }

  lemma CancelShape(rows: Rows, c: Command)
    requires c.CancelCommand? && ValidBucket(c.cancel.identity, rows) && Cancel(rows, c.cancel).Ok?
    ensures var a := Cancel(rows, c.cancel).value;
      Shape(rows, a, c) && ValidReservation(a.record) && a.record.id == ReservationId(c.cancel.identity, c.cancel.key)
  {
    var a := Cancel(rows, c.cancel).value;
    var i := FindIndex(rows, ReservationId(c.cancel.identity, c.cancel.key));
    if i.Some? && a.rows != rows { ShapeOf(rows, a, c, i.value); }
  }

  lemma ReleaseShape(rows: Rows, c: Command)
    requires c.ReleaseCommand? && ReleaseDirectReserved(rows, c.expected, c.now, c.outcome).Ok?
    ensures var a := ReleaseDirectReserved(rows, c.expected, c.now, c.outcome).value;
      Shape(rows, a, c) && ValidReservation(a.record) && a.record.id == c.expected.id
  {
    ShapeOf(rows, ReleaseDirectReserved(rows, c.expected, c.now, c.outcome).value, c,
            FindIndex(rows, c.expected.id).value);
  }

  lemma SettleShape(rows: Rows, c: Command)
    requires c.SettleCommand? && ValidBucket(MerchantIdentity(c.settle.account), rows)
      && SettleMerchant(rows, c.settle).Ok?
    ensures var a := SettleMerchant(rows, c.settle).value;
      Shape(rows, a, c) && ValidReservation(a.record)
      && a.record.id ==
           ReservationId(MerchantIdentity(c.settle.account), MERCHANT_NAMESPACE + c.settle.proof.operationId)
  {
    var a := SettleMerchant(rows, c.settle).value;
    if a.rows != rows { ShapeOf(rows, a, c, FindIndex(rows, a.record.id).value); }
  }

  /** The idempotency key a command addresses in its bucket. */
  function KeyOf(c: Command): string {
    match c
    case ReserveCommand(input) => input.key
    case OwnerCapCommand(input) => input.key
    case TransitionCommand(input) => input.id.key
    case ReleaseCommand(expected, _, _) => expected.id.key
    case CancelCommand(input) => input.key
    case SettleCommand(input) => MERCHANT_NAMESPACE + input.proof.operationId
  }

  /** Every completed command has one of the three shapes, and answers with a valid row under the key it addressed. */
  lemma ApplyShape(codec: AP.Codec, identity: Identity, rows: Rows, c: Command)
    requires ValidBucket(identity, rows) && Apply(codec, identity, rows, c).Ok?
    ensures var a := Apply(codec, identity, rows, c).value;
      Shape(rows, a, c) && ValidReservation(a.record) && a.record.id == ReservationId(identity, KeyOf(c))
  {
    var a := Apply(codec, identity, rows, c).value;
    match c
    case ReserveCommand(input) =>
      var (id, initial) := ReserveTarget(codec, input).value;
      AP.EvaluateBounds(codec, input.registry, PolicyRequest(input, 0));
      if CheckDay(codec, rows, id, input).Ok? { CheckDayBounds(codec, rows, id, input); }
      ReserveShape(rows, id, initial, c, CheckDay(codec, rows, id, input));
    case OwnerCapCommand(input) =>
    case TransitionCommand(input) => TransitionShape(identity, rows, c);
    case ReleaseCommand(expected, now, outcome) => ReleaseShape(rows, c);
    case CancelCommand(input) => CancelShape(rows, c);
    case SettleCommand(input) => SettleShape(rows, c);
  }

  // ---------------------------------------------------------------- what a shape keeps

  /** A bucket's integrity, and with it one row per id, survives every command. */
  lemma ShapeKeepsBucket(identity: Identity, rows: Rows, a: Applied, c: Command)
    requires ValidBucket(identity, rows) && Shape(rows, a, c)
    requires ValidReservation(a.record) && a.record.id.identity == identity
    ensures ValidBucket(identity, a.rows)
  {
  }

  /** Rows keep their places, their ids and their terms, and change only lawfully. */
  lemma ShapeKeepsRow(rows: Rows, a: Applied, c: Command, i: nat)
    requires Shape(rows, a, c) && i < |rows|
    ensures |rows| <= |a.rows|
    ensures a.rows[i] == rows[i] || (a.rows[i] == a.record && Rewrites(rows[i], a.record, c))
  {
  }

  /** A command leaves every row under another key exactly as it was. */
  lemma OtherRowsUntouched(identity: Identity, rows: Rows, a: Applied, c: Command, id: ReservationId)
    requires ValidBucket(identity, rows) && Shape(rows, a, c)
    requires ValidReservation(a.record) && a.record.id.identity == identity && a.record.id != id
    ensures Find(a.rows, id) == Find(rows, id)
  {
    ShapeKeepsBucket(identity, rows, a, c);
    var i := FindIndex(rows, id);
    if i.Some? {
      ShapeKeepsRow(rows, a, c, i.value);
      assert a.rows[i.value] == rows[i.value];
      assert a.rows[FindIndex(a.rows, id).value].id == a.rows[i.value].id;
    } else if a.rows == rows + [a.record] {
      assert forall j :: 0 <= j < |a.rows| ==> a.rows[j].id != id;
    }
  }

  /** A failed-before-effect row leaves that state only by an explicit retry of its own key that passed a daily
      check. */
  lemma FailedRowLeavesOnlyByReopen(rows: Rows, a: Applied, c: Command, i: nat)
    requires Shape(rows, a, c) && i < |rows| && rows[i].state == FailedBeforeEffect && a.rows[i] != rows[i]
    ensures Reopens(rows[i], a.rows[i], c) && Usage(rows, Day(c.reserve.now)) + rows[i].amount <= a.dailyCap
  {
    ShapeKeepsRow(rows, a, c, i);
  }

  // ---------------------------------------------------------------- the daily cap, one step

  function Max(a: nat, b: nat): nat { if a < b then b else a }

  /** At or after the clock's day, a row's claim on that day is part of the usage the clock sees. */
  lemma ExposureWithinUsage(rows: Rows, now: int, day: int)
    requires Day(now) <= day
    ensures Total(ExposureAt(day), rows) <= Usage(rows, Day(now))
  {
    TotalBelow(ExposureAt(day), UsageAt(Day(now)), rows);
  }

  /** A hold admitted against the day's usage: no day's exposure passes what it was, or the cap just checked. */
  lemma AdmittedExposure(rows: Rows, a: Applied, now: int, day: int)
    requires a.record.state == Reserved && Checks(rows, a, now)
    requires Total(ExposureAt(day), a.rows) == Total(ExposureAt(day), rows) + Exposure(a.record, day)
    ensures Total(ExposureAt(day), a.rows) <= Max(Total(ExposureAt(day), rows), a.dailyCap)
  {
    if day >= Day(a.record.updatedAt) {
      DayMonotone(now, a.record.updatedAt);
      ExposureWithinUsage(rows, now, day);
    }
  }

  /** Moving a hold forward never raises any day's exposure. */
  lemma MoveExposure(r: Reservation, next: Reservation, day: int)
    requires Moves(r, next) && SameHold(r, next) && ValidReservation(next)
    ensures Exposure(next, day) <= Exposure(r, day)
  {
    DayMonotone(r.updatedAt, next.updatedAt);
    if next.effectAt.Some? { DayMonotone(r.updatedAt, next.effectAt.value); }
  }

  lemma CreatedExposure(rows: Rows, a: Applied, c: Command, day: int)
    requires a.rows == rows + [a.record] && Creates(rows, a, c)
    requires c.ReserveCommand? ==> Checks(rows, a, c.reserve.now)
    ensures Total(ExposureAt(day), a.rows) <= Max(Total(ExposureAt(day), rows), a.dailyCap) + a.unchecked
  {
    TotalAppend(ExposureAt(day), rows, a.record);
    if c.ReserveCommand? { AdmittedExposure(rows, a, c.reserve.now, day); }
  }

  lemma RewrittenExposure(rows: Rows, a: Applied, c: Command, i: nat, day: int)
    requires i < |rows| && a.rows == rows[i := a.record] && Rewrites(rows[i], a.record, c) && ValidReservation(a.record)
    requires c.ReserveCommand? ==> Checks(rows, a, c.reserve.now)
    ensures Total(ExposureAt(day), a.rows) <= Max(Total(ExposureAt(day), rows), a.dailyCap)
  {
    TotalUpdate(ExposureAt(day), rows, i, a.record);
    if c.ReserveCommand? {
      assert Exposure(rows[i], day) == 0;
      AdmittedExposure(rows, a, c.reserve.now, day);
    } else {
      MoveExposure(rows[i], a.record, day);
    }
  }

  /** One command: no day's exposure passes what it was, or the cap this command checked, plus what it charged
      unchecked. */
  lemma StepExposure(rows: Rows, a: Applied, c: Command, day: int)
    requires Shape(rows, a, c) && ValidReservation(a.record)
    ensures Total(ExposureAt(day), a.rows) <= Max(Total(ExposureAt(day), rows), a.dailyCap) + a.unchecked
  {
    if a.rows == rows + [a.record] && Creates(rows, a, c) {
      assert a.rows != rows;
      CreatedExposure(rows, a, c, day);
    } else if a.rows != rows {
      var i :| 0 <= i < |rows| && a.rows == rows[i := a.record] && Rewrites(rows[i], a.record, c);
      RewrittenExposure(rows, a, c, i, day);
    }
  }

  // ---------------------------------------------------------------- every run

  /** A bucket with the largest daily cap checked so far and everything charged without a daily check. */
  datatype BucketState = BucketState(rows: Rows, cap: nat, unchecked: nat)

  const EMPTY := BucketState([], 0, 0)

  function After(s: BucketState, r: Result<Applied>): BucketState {
    if r.Err? then s
    else BucketState(r.value.rows, Max(s.cap, r.value.dailyCap), s.unchecked + r.value.unchecked)
  }

  function Step(codec: AP.Codec, identity: Identity, s: BucketState, c: Command): BucketState {
    After(s, Apply(codec, identity, s.rows, c))
  }

  function Run(codec: AP.Codec, identity: Identity, s: BucketState, cs: seq<Command>): BucketState
    decreases |cs|
  {
    if cs == [] then s else Run(codec, identity, Step(codec, identity, s, cs[0]), cs[1..])
  }

  ghost predicate WithinCap(s: BucketState) {
    forall day: int :: Total(ExposureAt(day), s.rows) <= s.cap + s.unchecked
  }

  ghost predicate Sound(identity: Identity, s: BucketState) {
    ValidBucket(identity, s.rows) && WithinCap(s)
  }

  lemma StepKeepsSound(codec: AP.Codec, identity: Identity, s: BucketState, c: Command)
    requires Sound(identity, s)
    ensures Sound(identity, Step(codec, identity, s, c))
  {
    var r := Apply(codec, identity, s.rows, c);
    if r.Ok? {
      ApplyShape(codec, identity, s.rows, c);
      ShapeKeepsBucket(identity, s.rows, r.value, c);
      forall day: int ensures Total(ExposureAt(day), r.value.rows) <= After(s, r).cap + After(s, r).unchecked {
        StepExposure(s.rows, r.value, c, day);
      }
    }
  }

  lemma {:induction false} RunKeepsSound(codec: AP.Codec, identity: Identity, s: BucketState, cs: seq<Command>)
    requires Sound(identity, s)
    ensures Sound(identity, Run(codec, identity, s, cs))
    decreases |cs|
  {
    if cs != [] {
      StepKeepsSound(codec, identity, s, cs[0]);
      RunKeepsSound(codec, identity, Step(codec, identity, s, cs[0]), cs[1..]);
    }
  }

  /** The daily cap theorem: whatever the clocks and the backdating, the spend of any one UTC day, together with every
      hold still open at its end, stays within the largest daily cap checked plus what was charged without a check. */
  lemma DailySpendWithinCap(codec: AP.Codec, identity: Identity, cs: seq<Command>, day: int)
    ensures var s := Run(codec, identity, EMPTY, cs);
      && ValidBucket(identity, s.rows)
      && Total(SpendAt(day), s.rows) <= Total(ExposureAt(day), s.rows) <= s.cap + s.unchecked
  {
    RunKeepsSound(codec, identity, EMPTY, cs);
    TotalBelow(SpendAt(day), ExposureAt(day), Run(codec, identity, EMPTY, cs).rows);
  }

  /** Only policy reserves may charge, and no registry they present allows more than `bound` a day. */
  ghost predicate Bounded(cs: seq<Command>, bound: nat) {
    forall i :: 0 <= i < |cs| ==>
      !cs[i].OwnerCapCommand? && (cs[i].ReserveCommand? ==> AP.DailyWithin(cs[i].reserve.registry.body, bound))
  }

  lemma StepWithinBound(codec: AP.Codec, identity: Identity, rows: Rows, c: Command, bound: nat)
    requires !c.OwnerCapCommand? && (c.ReserveCommand? ==> AP.DailyWithin(c.reserve.registry.body, bound))
    requires Apply(codec, identity, rows, c).Ok?
    ensures var a := Apply(codec, identity, rows, c).value; a.unchecked == 0 && a.dailyCap <= bound
  {
    if c.ReserveCommand? {
      var (id, initial) := ReserveTarget(codec, c.reserve).value;
      var checked := CheckDay(codec, rows, id, c.reserve);
      if checked.Ok? {
        var usage := UsageResult(rows, c.reserve.now).value;
        AP.EvaluateDailyWithin(codec, c.reserve.registry,
                               PolicyRequest(c.reserve, usage).(chain := id.identity.chain,
                                                                identifier := id.identity.identifier),
                               bound);
      }
      CheckedReserveCap(rows, id, initial, c.reserve.retryFailedBeforeEffect, c.reserve.now, checked);
    }
  }

  lemma CheckedReserveCap(rows: Rows, id: ReservationId, initial: AP.Admission, retry: bool, now: int,
                          checked: Result<AP.Admission>)
    requires ReserveChecked(rows, id, initial, retry, now, checked).Ok?
    ensures var a := ReserveChecked(rows, id, initial, retry, now, checked).value;
      a.unchecked == 0 && (a.dailyCap == 0 || (checked.Ok? && a.dailyCap == checked.value.caps.daily))
  {
  }

  lemma {:induction false} RunWithinBound(codec: AP.Codec, identity: Identity, s: BucketState, cs: seq<Command>,
                                          bound: nat)
    requires Bounded(cs, bound)
    ensures var t := Run(codec, identity, s, cs); t.unchecked == s.unchecked && t.cap <= Max(s.cap, bound)
    decreases |cs|
  {
    if cs != [] {
      if Apply(codec, identity, s.rows, cs[0]).Ok? { StepWithinBound(codec, identity, s.rows, cs[0], bound); }
      RunWithinBound(codec, identity, Step(codec, identity, s, cs[0]), cs[1..], bound);
    }
  }

  /** In the owner's own terms: if no policy presented ever allowed more than `bound` a day, no day's spend exceeds
      it. */
  lemma DailySpendWithinOwnerLimit(codec: AP.Codec, identity: Identity, cs: seq<Command>, bound: nat, day: int)
    requires Bounded(cs, bound)
    ensures Total(SpendAt(day), Run(codec, identity, EMPTY, cs).rows) <= bound
  {
    DailySpendWithinCap(codec, identity, cs, day);
    RunWithinBound(codec, identity, EMPTY, cs, bound);
  }

  lemma StepKeepsBucket(codec: AP.Codec, identity: Identity, s: BucketState, c: Command)
    requires ValidBucket(identity, s.rows)
    ensures ValidBucket(identity, Step(codec, identity, s, c).rows)
  {
    var r := Apply(codec, identity, s.rows, c);
    if r.Ok? {
      ApplyShape(codec, identity, s.rows, c);
      ShapeKeepsBucket(identity, s.rows, r.value, c);
    }
  }

  /** A transition never trips over its own validator: clamping keeps every claimed instant inside the row's times, so
      in a sound bucket only a consumption that is not a uint256 is answered as corruption. */
  lemma TransitionNeverCorrupt(identity: Identity, rows: Rows, input: TransitionInput)
    requires ValidBucket(identity, rows)
    requires input.consumed.Some? ==> input.consumed.value <= MAX_UINT256
    ensures Transition(rows, input) != Err(StateCorrupt)
  {
    var i := FindIndex(rows, input.id);
    if i.Some? && CheckTransition(rows[i.value], input).Ok? && Allowed(rows[i.value].state, input.state) {
      MovedIsValid(rows[i.value], input, BucketStamp(rows, input.now));
    }
  }

  lemma MovedIsValid(r: Reservation, input: TransitionInput, at: int)
    requires ValidReservation(r) && r.updatedAt <= at && CheckTransition(r, input).Ok? && Allowed(r.state, input.state)
    ensures ValidReservation(Moved(r, input, at))
  {
  }

  // ---------------------------------------------------------------- rows that never move again

  predicate Sink(s: State) { s in {Finalized, FailedConfirmedRevert, ReleasedUnsubmitted} }

  /** One command leaves such a row where and as it is. */
  lemma SinkRowStays(codec: AP.Codec, identity: Identity, s: BucketState, c: Command, i: nat)
    requires ValidBucket(identity, s.rows) && i < |s.rows| && Sink(s.rows[i].state)
    ensures var t := Step(codec, identity, s, c);
      ValidBucket(identity, t.rows) && i < |t.rows| && t.rows[i] == s.rows[i]
  {
    var r := Apply(codec, identity, s.rows, c);
    StepKeepsBucket(codec, identity, s, c);
    if r.Ok? {
      ApplyShape(codec, identity, s.rows, c);
      ShapeKeepsRow(s.rows, r.value, c, i);
    }
  }

  /** Finalized, reverted and released rows are the same row for ever, in the same place, and alone under their id. */
  lemma {:induction false} SinkRowsNeverChange(codec: AP.Codec, identity: Identity, s: BucketState, cs: seq<Command>,
                                               i: nat)
    requires ValidBucket(identity, s.rows) && i < |s.rows| && Sink(s.rows[i].state)
    ensures var t := Run(codec, identity, s, cs);
      && ValidBucket(identity, t.rows) && i < |t.rows|
      && t.rows[i] == s.rows[i] && Find(t.rows, s.rows[i].id) == Some(s.rows[i])
    decreases |cs|
  {
    if cs == [] {
      assert s.rows[FindIndex(s.rows, s.rows[i].id).value].id == s.rows[i].id;
    } else {
      SinkRowStays(codec, identity, s, cs[0], i);
      SinkRowsNeverChange(codec, identity, Step(codec, identity, s, cs[0]), cs[1..], i);
    }
  }

  /** A reserve whose key is already stored writes nothing, whatever it asks, unless it is an explicit retry of a
      failed-before-effect row; when it answers, it answers with the stored row. */
  lemma ReplayWritesNothing(codec: AP.Codec, rows: Rows, id: ReservationId, initial: AP.Admission, input: ReserveInput)
    requires Find(rows, id).Some?
    requires !(input.retryFailedBeforeEffect && Find(rows, id).value.state == FailedBeforeEffect)
    ensures var r := Reserve(codec, rows, id, initial, input);
      r.Ok? ==> r.value == Unchanged(rows, Find(rows, id).value)
  {
  }

  lemma AppendFinds(rows: Rows, r: Reservation)
    ensures Find(rows + [r], r.id) == Some(r)
  {
    assert (rows + [r])[|rows + [r]| - 1] == r;
  }

  /** A completed reserve, retries aside, answers with the row now stored under its id: the one found there, or a new
      hold. */
  lemma ReserveAnswers(rows: Rows, id: ReservationId, initial: AP.Admission, now: int, checked: Result<AP.Admission>)
    requires ReserveChecked(rows, id, initial, false, now, checked).Ok?
    ensures var a := ReserveChecked(rows, id, initial, false, now, checked).value;
      && Find(a.rows, id) == Some(a.record)
      && IsReplay(a.record, initial.policyDigest, initial.registryVersion, initial.rail, initial.amount)
      && (Find(rows, id).None? ==>
            && a.rows == rows + [a.record] && checked.Ok?
            && a.record == NewHold(id, initial.policyDigest, initial.registryVersion, initial.rail, initial.amount,
                                   BucketStamp(rows, now)))
      && (Find(rows, id).Some? ==> a.rows == rows)
  {
    if FindIndex(rows, id).None? {
      var hold := NewHold(id, initial.policyDigest, initial.registryVersion, initial.rail, initial.amount,
                          BucketStamp(rows, now));
      assert ReserveChecked(rows, id, initial, false, now, checked) ==
        Ok(Applied(rows + [hold], hold, checked.value.caps.daily, 0));
      AppendFinds(rows, hold);
    }
  }

  /** No command addresses this key. */
  ghost predicate Spares(cs: seq<Command>, key: string) { forall i :: 0 <= i < |cs| ==> KeyOf(cs[i]) != key }

  /** Any run of commands under other keys leaves a row as it is. */
  lemma {:induction false} OtherKeysKeepRow(codec: AP.Codec, identity: Identity, s: BucketState, cs: seq<Command>,
                                            key: string)
    requires ValidBucket(identity, s.rows) && Spares(cs, key)
    ensures var id := ReservationId(identity, key); Find(Run(codec, identity, s, cs).rows, id) == Find(s.rows, id)
    decreases |cs|
  {
    if cs != [] {
      var r := Apply(codec, identity, s.rows, cs[0]);
      StepKeepsBucket(codec, identity, s, cs[0]);
      if r.Ok? {
        ApplyShape(codec, identity, s.rows, cs[0]);
        OtherRowsUntouched(identity, s.rows, r.value, cs[0], ReservationId(identity, key));
      }
      OtherKeysKeepRow(codec, identity, Step(codec, identity, s, cs[0]), cs[1..], key);
    }
  }

  /** A cancelled lease stays cancelled: after any further commands its key holds one released row, charged to no
      day. */
  lemma CancelledKeyStaysUncharged(codec: AP.Codec, s: BucketState, input: CancelInput, cs: seq<Command>, day: int)
    requires ValidBucket(input.identity, s.rows) && Cancel(s.rows, input).Ok?
    ensures var t := Run(codec, input.identity, Step(codec, input.identity, s, CancelCommand(input)), cs);
      var r := Find(t.rows, ReservationId(input.identity, input.key));
      r.Some? && r.value.state == ReleasedUnsubmitted && Charge(r.value, day) == 0
  {
    var id, c := ReservationId(input.identity, input.key), CancelCommand(input);
    StepKeepsBucket(codec, input.identity, s, c);
    var u := Step(codec, input.identity, s, c);
    assert u.rows == Cancel(s.rows, input).value.rows;
    CancelLeavesReleased(s.rows, input);
    var k := FindIndex(u.rows, id).value;
    SinkRowsNeverChange(codec, input.identity, u, cs, k);
  }

  /** The row a command answers with is the one stored under its id. */
  lemma AnswerIsStored(identity: Identity, rows: Rows, a: Applied, c: Command)
    requires ValidBucket(identity, a.rows) && Shape(rows, a, c)
    ensures Find(a.rows, a.record.id) == Some(a.record)
  {
    assert a.record in a.rows by {
      if a.rows == rows + [a.record] { assert a.rows[|rows|] == a.record; }
    }
    var k :| 0 <= k < |a.rows| && a.rows[k] == a.record;
    assert a.rows[FindIndex(a.rows, a.record.id).value].id == a.rows[k].id;
  }

  lemma CancelLeavesReleased(rows: Rows, input: CancelInput)
    requires ValidBucket(input.identity, rows) && Cancel(rows, input).Ok?
    ensures var r := Find(Cancel(rows, input).value.rows, ReservationId(input.identity, input.key));
      r.Some? && r.value.state == ReleasedUnsubmitted && r.value.effectAt.None?
  {
    var a := Cancel(rows, input).value;
    CancelShape(rows, CancelCommand(input));
    ShapeKeepsBucket(input.identity, rows, a, CancelCommand(input));
    AnswerIsStored(input.identity, rows, a, CancelCommand(input));
  }
}
