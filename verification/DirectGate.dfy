/** The direct rail: its journal, and the gate that drives the shared ledger forward to wherever the journal is. */
module DirectGate {
  import opened Basics
  import AP = AssetPolicy
  import opened UsageRecord
  import opened UsageBucket
  import opened UsageBucketProofs
  import opened UsageLedger
  import DA = DirectAdmission

  // ---------------------------------------------------------------- the journal

  datatype JournalState =
    | AwaitingApproval | Started | SignedNotSubmitted | SubmittedPending | FinalityUnknown
    | Completed | FailedBefore | ConfirmedRevert | ProvenSuperseded | AbandonedUnknown

  /** `undispatched` is the reason `owner_abandoned_undispatched_signature` on an abandoned operation. */
  datatype Journal = Journal(state: JournalState, undispatched: bool)

  predicate JournalAllows(from: JournalState, to: JournalState) {
    match from
    case AwaitingApproval => to in {Started, FailedBefore}
    case Started => to in {SignedNotSubmitted, FailedBefore}
    case SignedNotSubmitted | SubmittedPending | FinalityUnknown =>
      || to in {FinalityUnknown, Completed, ConfirmedRevert, ProvenSuperseded, AbandonedUnknown}
      || to == SubmittedPending
    case _ => false
  }

  /** An undispatched abandonment can only follow a signature that was never submitted. */
  predicate JournalStep(from: Journal, to: Journal) {
    && JournalAllows(from.state, to.state)
    && (to.undispatched ==> to.state == AbandonedUnknown && from.state == SignedNotSubmitted)
  }

  /** Where the journal says the effect is. */
  function UsageTarget(j: Journal): State {
    match j.state
    case AwaitingApproval | Started | SignedNotSubmitted => Reserved
    case SubmittedPending => Submitted
    case FinalityUnknown => UnknownFinality
    case Completed => Finalized
    case FailedBefore => FailedBeforeEffect
    case ConfirmedRevert | ProvenSuperseded => FailedConfirmedRevert
    case AbandonedUnknown => if j.undispatched then FailedBeforeEffect else UnknownFinality
  }

  // ---------------------------------------------------------------- follow

  function RowState(rows: Rows, id: ReservationId): Option<State> {
    match Find(rows, id)
    case None => None
    case Some(r) => Some(r.state)
  }

  /** One ledger move by the gate: the row's own policy digest, an outcome for a terminal state, no backdating. */
  function Move(rows: Rows, current: Reservation, to: TargetState, outcome: Outcome, now: int): Result<Rows> {
    var applied :- Transition(rows, TransitionInput(current.id, current.policyDigest, to, now,
                                                    if Terminal(to) then Some(outcome) else None, None, None, None));
    Ok(applied.rows)
  }

  /** The ledger states one `follow` still has to write, in order; an error is a journal and ledger that contradict. */
  function Plan(target: State, row: Option<State>): Result<seq<TargetState>> {
    if target == Reserved then Ok([])
    else
      match row
      case None => if target == FailedBeforeEffect then Ok([]) else Err(StateCorrupt)
      case Some(current) =>
        if current == target then Ok([])
        else if current in {Finalized, FailedBeforeEffect, FailedConfirmedRevert} then Err(StateCorrupt)
        else if target == Submitted && current != Reserved then Ok([])
        else if target == FailedBeforeEffect && current != Reserved then Err(StateCorrupt)
        else if target == FailedConfirmedRevert && current == Reserved then Ok([Submitted, FailedConfirmedRevert])
        else Ok([target])
  }

  /** Execute planned moves one durable write at a time; the result lists the bucket after each write. */
  function Execute(rows: Rows, current: Reservation, plan: seq<TargetState>, outcome: Outcome,
                   clocks: seq<int>): Result<seq<Rows>>
    requires |plan| <= |clocks|
    decreases |plan|
  {
    if plan == [] then Ok([])
    else
      var moved :- Move(rows, current, plan[0], outcome, clocks[0]);
      var rest :- Execute(moved, current, plan[1..], outcome, clocks[1..]);
      Ok([moved] + rest)
  }

  lemma ExecuteOne(rows: Rows, current: Reservation, to: TargetState, outcome: Outcome, clocks: seq<int>)
    requires |clocks| == 2
    ensures var one := Move(rows, current, to, outcome, clocks[0]);
      Execute(rows, current, [to], outcome, clocks) == if one.Err? then Err(one.error) else Ok([one.value])
  {
    var one := Move(rows, current, to, outcome, clocks[0]);
    if one.Ok? {
      assert Execute(one.value, current, [to][1..], outcome, clocks[1..]) == Ok([]);
      assert [one.value] + [] == [one.value];
    }
  }

  lemma ExecuteTwo(rows: Rows, current: Reservation, to: TargetState, then': TargetState, outcome: Outcome,
                   clocks: seq<int>)
    requires |clocks| == 2
    ensures var one := Move(rows, current, to, outcome, clocks[0]);
      Execute(rows, current, [to, then'], outcome, clocks) ==
        if one.Err? then Err(one.error)
        else
          var two := Move(one.value, current, then', outcome, clocks[1]);
          if two.Err? then Err(two.error) else Ok([one.value, two.value])
  {
    var one := Move(rows, current, to, outcome, clocks[0]);
    if one.Ok? {
      var rest, late := [to, then'][1..], clocks[1..];
      assert rest == [then'] && late == [clocks[1]];
      var two := Move(one.value, current, then', outcome, late[0]);
      if two.Ok? {
        assert Execute(two.value, current, rest[1..], outcome, late[1..]) == Ok([]);
        assert [two.value] + [] == [two.value] && [one.value] + [two.value] == [one.value, two.value];
      }
    }
  }

  /** The bucket after each durable write of one `follow`: empty when there is nothing to write. */
  function FollowWrites(rows: Rows, id: ReservationId, target: State, outcome: Outcome, first: int,
                        second: int): Result<seq<Rows>>
  {
    var plan :- Plan(target, RowState(rows, id));
    if plan == [] then Ok([]) else Execute(rows, Find(rows, id).value, plan, outcome, [first, second])
  }

  /** The rows a `follow` leaves when it stops after `writes` of its writes (a crash), or runs to its end. */
  function Reached(rows: Rows, writes: seq<Rows>, done: nat): Rows {
    if done == 0 || writes == [] then rows
    else if done <= |writes| then writes[done - 1] else writes[|writes| - 1]
  }

  /** The gate answered as planned, and left the operation's bucket as the last planned write left it. */
  ghost predicate Followed(before: Buckets, after: Buckets, id: ReservationId, writes: Result<seq<Rows>>, r: Result<()>)
  {
    && (r.Ok? <==> writes.Ok?)
    && (writes.Ok? ==>
          OnlyBucket(before, after, id.identity, Reached(BucketOf(before, id.identity), writes.value, |writes.value|)))
  }

  lemma TwoWrites(before: Buckets, between: Buckets, after: Buckets, id: ReservationId, one: Rows, two: Rows,
                  r: Result<()>)
    requires OnlyBucket(before, between, id.identity, one) && OnlyBucket(between, after, id.identity, two) && r.Ok?
    ensures Followed(before, after, id, Ok([one, two]), r)
  {
  }

  /** The gate over the real ledger object. */
  class DirectAllowlistGate {
    const ledger: AssetUsageLedger

    constructor (ledger: AssetUsageLedger)
      ensures this.ledger == ledger
    {
      this.ledger := ledger;
    }

    /** Approval: confirm the prepared revision, check a first hold against the day, and take or replay the hold. */
    method Reserve(listed: DA.Subject -> bool, loaded: Result<Option<DA.ActivePolicy>>, s: DA.Subject,
                   binding: DA.Binding, now: int)
      returns (answer: Result<Reservation>)
      requires ledger.Valid()
      modifies ledger
      ensures ledger.Valid()
      ensures match DA.GateReserve(ledger.codec, listed, loaded, old(ledger.buckets), s, binding, now)
              case Ok(held) =>
                answer == Ok(held.record) && OnlyBucket(old(ledger.buckets), ledger.buckets, held.identity, held.rows)
              case Err(e) =>
                answer == Err(e) &&
                forall identity :: BucketOf(ledger.buckets, identity) == BucketOf(old(ledger.buckets), identity)
    {
      var active :- DA.Confirm(listed, loaded, s, binding);
      var checked := CheckApproval(active, s, now);
      if checked.Err? { return Err(checked.error); }
      answer := TakeHold(active, s, now);
    }

    method CheckApproval(active: DA.ActivePolicy, s: DA.Subject, now: int) returns (r: Result<()>)
      requires ledger.Valid()
      ensures r == DA.CheckApproval(ledger.codec, active, BucketOf(ledger.buckets, DA.IdentityOf(s)), s, now)
    {
      var usage, existing := ledger.UsageWithReservation(DA.IdentityOf(s), DA.IdOf(s), now);
      if existing.Some? {
        return if existing.value.state == Reserved then Ok(()) else Err(OperationBlocked);
      }
      if usage.Err? { return Err(usage.error); }
      var admitted := DA.GateEvaluate(ledger.codec, active.registry, s, usage.value, now);
      return if admitted.Err? then Err(admitted.error) else Ok(());
    }

    method TakeHold(active: DA.ActivePolicy, s: DA.Subject, now: int) returns (answer: Result<Reservation>)
      requires ledger.Valid()
      modifies ledger
      ensures ledger.Valid()
      ensures match DA.TakeHold(ledger.codec, active, old(ledger.buckets), s, now)
              case Ok(held) =>
                answer == Ok(held.record) && OnlyBucket(old(ledger.buckets), ledger.buckets, held.identity, held.rows)
              case Err(e) =>
                answer == Err(e) &&
                forall identity :: BucketOf(ledger.buckets, identity) == BucketOf(old(ledger.buckets), identity)
    {
      ghost var before := ledger.buckets;
      answer := ledger.Reserve(DA.ReserveInputOf(active, s, now));
      if answer.Ok? && answer.value.state != Reserved {
        ReplayedElsewhere(ledger.codec, before, active, s, now);
        return Err(OperationBlocked);
      }
    }

    /** Move the ledger forward to the journal's state; the two clock readings are those of its two possible writes. */
    method Follow(id: ReservationId, target: State, outcome: Outcome, first: int, second: int) returns (r: Result<()>)
      requires ledger.Valid()
      modifies ledger
      ensures ledger.Valid()
      ensures Followed(old(ledger.buckets), ledger.buckets, id,
                       FollowWrites(BucketOf(old(ledger.buckets), id.identity), id, target, outcome, first, second), r)
    {
      if target == Reserved { return Ok(()); }
      var _, existing := ledger.UsageWithReservation(id.identity, id, first);
      if existing.None? {
        return if target == FailedBeforeEffect then Ok(()) else Err(StateCorrupt);
      }
      var current := existing.value;
      if current.state == target { return Ok(()); }
      if current.state in {Finalized, FailedBeforeEffect, FailedConfirmedRevert} { return Err(StateCorrupt); }
      if target == Submitted && current.state != Reserved { return Ok(()); }
      if target == FailedBeforeEffect && current.state != Reserved { return Err(StateCorrupt); }
      if target == FailedConfirmedRevert && current.state == Reserved {
        r := SubmitThenMove(current, target, outcome, first, second);
      } else {
        r := MoveOnly(current, target, outcome, first, second);
      }
    }

    /** A revert met before its submission was recorded takes two writes. */
    method SubmitThenMove(current: Reservation, to: TargetState, outcome: Outcome, first: int, second: int)
      returns (r: Result<()>)
      requires ledger.Valid()
      modifies ledger
      ensures ledger.Valid()
      ensures Followed(old(ledger.buckets), ledger.buckets, current.id,
                       Execute(BucketOf(old(ledger.buckets), current.id.identity), current, [Submitted, to], outcome,
                               [first, second]), r)
    {
      ghost var before, rows := ledger.buckets, BucketOf(ledger.buckets, current.id.identity);
      ExecuteTwo(rows, current, Submitted, to, outcome, [first, second]);
      r := MoveTo(current, Submitted, outcome, first);
      if r.Err? { return; }
      ghost var between := ledger.buckets;
      r := MoveTo(current, to, outcome, second);
      if r.Ok? {
        TwoWrites(before, between, ledger.buckets, current.id, BucketOf(between, current.id.identity),
                  BucketOf(ledger.buckets, current.id.identity), r);
      }
    }

    method MoveOnly(current: Reservation, to: TargetState, outcome: Outcome, first: int, ghost second: int)
      returns (r: Result<()>)
      requires ledger.Valid()
      modifies ledger
      ensures ledger.Valid()
      ensures Followed(old(ledger.buckets), ledger.buckets, current.id,
                       Execute(BucketOf(old(ledger.buckets), current.id.identity), current, [to], outcome,
                               [first, second]), r)
    {
      ExecuteOne(BucketOf(ledger.buckets, current.id.identity), current, to, outcome, [first, second]);
      r := MoveTo(current, to, outcome, first);
    }

    /** One write of `follow`. */
    method MoveTo(current: Reservation, to: TargetState, outcome: Outcome, now: int) returns (r: Result<()>)
      requires ledger.Valid()
      modifies ledger
      ensures ledger.Valid()
      ensures var identity := current.id.identity;
        var moved := Move(BucketOf(old(ledger.buckets), identity), current, to, outcome, now);
        && (r.Ok? <==> moved.Ok?)
        && (moved.Ok? ==> OnlyBucket(old(ledger.buckets), ledger.buckets, identity, moved.value))
    {
      var applied := ledger.Transition(TransitionInput(current.id, current.policyDigest, to, now,
                                                       if Terminal(to) then Some(outcome) else None, None, None, None));
      return if applied.Err? then Err(applied.error) else Ok(());
    }
  }

  /** A reserve answered with a row already past `reserved` wrote nothing. */
  lemma ReplayedElsewhere(codec: AP.Codec, buckets: Buckets, active: DA.ActivePolicy, s: DA.Subject, now: int)
    requires ReserveTarget(codec, DA.ReserveInputOf(active, s, now)).Ok?
    requires var (id, initial) := ReserveTarget(codec, DA.ReserveInputOf(active, s, now)).value;
      var applied :=
        UsageBucket.Reserve(codec, BucketOf(buckets, id.identity), id, initial, DA.ReserveInputOf(active, s, now));
      applied.Ok? && applied.value.record.state != Reserved
    ensures var (id, initial) := ReserveTarget(codec, DA.ReserveInputOf(active, s, now)).value;
      UsageBucket.Reserve(codec, BucketOf(buckets, id.identity), id, initial,
                          DA.ReserveInputOf(active, s, now)).value.rows == BucketOf(buckets, id.identity)
  {
  }

  // ---------------------------------------------------------------- journal and ledger together

  /** Which ledger states of the operation's own row a journal state can meet. */
  predicate Agree(j: Journal, row: Option<State>) {
    match j.state
    case AwaitingApproval => row.None? || row == Some(Reserved)
    case Started | SignedNotSubmitted => row == Some(Reserved)
    case SubmittedPending | FinalityUnknown => row.Some? && Open(row.value)
    case Completed => row.Some? && (Open(row.value) || row.value == Finalized)
    case FailedBefore => row.None? || row.value in {Reserved, FailedBeforeEffect}
    case ConfirmedRevert | ProvenSuperseded => row.Some? && (Open(row.value) || row.value == FailedConfirmedRevert)
    case AbandonedUnknown =>
      row.Some? && (if j.undispatched then row.value in {Reserved, FailedBeforeEffect} else Open(row.value))
  }

  datatype System = System(journal: Journal, rows: Rows)

  datatype Event =
    | Hold(reserve: ReserveInput)
    | Advance(to: Journal)
    | Follow(outcome: Outcome, first: int, second: int, done: nat)
    | Other(command: Command)

  /** A hold is taken only at approval; `started` needs its lease; other rails use other keys of the same bucket. */
  predicate Enabled(id: ReservationId, s: System, e: Event) {
    match e
    case Hold(input) => s.journal.state == AwaitingApproval && input.key == id.key && !input.retryFailedBeforeEffect
    case Advance(to) => JournalStep(s.journal, to) && (to.state == Started ==> Find(s.rows, id).Some?)
    case Follow(_, _, _, _) => true
    case Other(c) => KeyOf(c) != id.key
  }

  function ApplyRows(codec: AP.Codec, id: ReservationId, rows: Rows, c: Command): Rows {
    var r := Apply(codec, id.identity, rows, c);
    if r.Ok? then r.value.rows else rows
  }

  /** A `follow` that would meet an illegal move leaves the system as it is (and the theorem says there is none). */
  function Next(codec: AP.Codec, id: ReservationId, s: System, e: Event): System {
    if !Enabled(id, s, e) then s
    else
      match e
      case Hold(input) => s.(rows := ApplyRows(codec, id, s.rows, ReserveCommand(input)))
      case Advance(to) => s.(journal := to)
      case Follow(outcome, first, second, done) =>
        var writes := FollowWrites(s.rows, id, UsageTarget(s.journal), outcome, first, second);
        if writes.Ok? then s.(rows := Reached(s.rows, writes.value, done)) else s
      case Other(c) => s.(rows := ApplyRows(codec, id, s.rows, c))
  }

  function RunSystem(codec: AP.Codec, id: ReservationId, s: System, es: seq<Event>): System
    decreases |es|
  {
    if es == [] then s else RunSystem(codec, id, Next(codec, id, s, es[0]), es[1..])
  }

  ghost predicate Consistent(id: ReservationId, s: System) {
    ValidBucket(id.identity, s.rows) && Agree(s.journal, RowState(s.rows, id)) && Unconsumed(s.rows, id)
  }

  /** This rail proves no partial consumption of its own hold. */
  predicate Unconsumed(rows: Rows, id: ReservationId) {
    Find(rows, id).Some? ==> Find(rows, id).value.consumed.None?
  }

  // ---------------------------------------------------------------- moves never fail where they are used

  lemma FindAfterUpdate(rows: Rows, id: ReservationId, i: nat, r: Reservation)
    requires i < |rows| && r.id == id && (forall j :: 0 <= j < |rows| && j != i ==> rows[j].id != id)
    ensures Find(rows[i := r], id) == Some(r)
  {
    assert rows[i := r][i].id == id;
    assert rows[i := r][FindIndex(rows[i := r], id).value].id == id;
  }

  lemma MoveSucceeds(rows: Rows, id: ReservationId, current: Reservation, to: TargetState, outcome: Outcome, now: int)
    requires ValidBucket(id.identity, rows) && RowState(rows, id).Some? && current.id == id
    requires Find(rows, id).value.policyDigest == current.policyDigest && Allowed(RowState(rows, id).value, to)
    ensures var r := Move(rows, current, to, outcome, now);
      && r.Ok? && ValidBucket(id.identity, r.value) && RowState(r.value, id) == Some(to)
      && Find(r.value, id).value.policyDigest == current.policyDigest
      && Find(r.value, id).value.consumed == Find(rows, id).value.consumed
  {
    var input := TransitionInput(id, current.policyDigest, to, now, if Terminal(to) then Some(outcome) else None, None,
                                 None, None);
    var i := FindIndex(rows, id).value;
    assert CheckTransition(rows[i], input).Ok?;
    MovedIsValid(rows[i], input, BucketStamp(rows, now));
    FindAfterUpdate(rows, id, i, Moved(rows[i], input, BucketStamp(rows, now)));
  }

  /** A plan that walks the state machine from the row's state. */
  predicate Walks(from: State, plan: seq<TargetState>)
    decreases |plan|
  {
    plan == [] || (Allowed(from, plan[0]) && Walks(plan[0], plan[1..]))
  }

  /** Each write of a run leaves a valid bucket with the operation's row in the planned state. */
  ghost predicate Written(id: ReservationId, plan: seq<TargetState>, writes: seq<Rows>) {
    && |writes| == |plan|
    && forall k :: 0 <= k < |plan| ==>
         ValidBucket(id.identity, writes[k]) && RowState(writes[k], id) == Some(plan[k]) && Unconsumed(writes[k], id)
  }

  lemma WrittenCons(id: ReservationId, plan: seq<TargetState>, moved: Rows, rest: seq<Rows>)
    requires plan != [] && ValidBucket(id.identity, moved) && RowState(moved, id) == Some(plan[0])
      && Unconsumed(moved, id)
    requires Written(id, plan[1..], rest)
    ensures Written(id, plan, [moved] + rest)
  {
  }

  lemma {:induction false} ExecuteSucceeds(rows: Rows, id: ReservationId, current: Reservation, plan: seq<TargetState>,
                                           outcome: Outcome, clocks: seq<int>)
    requires ValidBucket(id.identity, rows) && RowState(rows, id).Some? && current.id == id
    requires Find(rows, id).value.policyDigest == current.policyDigest && Unconsumed(rows, id)
    requires |plan| <= |clocks| && Walks(RowState(rows, id).value, plan)
    ensures var w := Execute(rows, current, plan, outcome, clocks); w.Ok? && Written(id, plan, w.value)
    decreases |plan|
  {
    if plan != [] {
      MoveSucceeds(rows, id, current, plan[0], outcome, clocks[0]);
      var moved := Move(rows, current, plan[0], outcome, clocks[0]).value;
      ExecuteSucceeds(moved, id, current, plan[1..], outcome, clocks[1..]);
      ExecuteFirst(rows, current, plan, outcome, clocks, moved);
      WrittenCons(id, plan, moved, Execute(moved, current, plan[1..], outcome, clocks[1..]).value);
    }
  }

  lemma ExecuteFirst(rows: Rows, current: Reservation, plan: seq<TargetState>, outcome: Outcome, clocks: seq<int>,
                     moved: Rows)
    requires 0 < |plan| <= |clocks| && Move(rows, current, plan[0], outcome, clocks[0]) == Ok(moved)
    requires Execute(moved, current, plan[1..], outcome, clocks[1..]).Ok?
    ensures var rest := Execute(moved, current, plan[1..], outcome, clocks[1..]).value;
      Execute(rows, current, plan, outcome, clocks) == Ok([moved] + rest)
  {
  }

  /** Wherever journal and ledger agree, the plan exists, walks the state machine, and every state on it still
      agrees. */
  lemma PlanWalks(j: Journal, row: Option<State>)
    requires Agree(j, row)
    ensures var plan := Plan(UsageTarget(j), row);
      && plan.Ok? && |plan.value| <= 2 && (plan.value != [] ==> row.Some? && Walks(row.value, plan.value))
      && forall k :: 0 <= k < |plan.value| ==> Agree(j, Some(plan.value[k]))
  {
    var plan := Plan(UsageTarget(j), row);
    if |plan.value| == 2 {
      assert plan.value[1..] == [FailedConfirmedRevert];
    }
  }

  /** What is left to do in a system whose journal and ledger agree. */
  function PlanOf(id: ReservationId, s: System): seq<TargetState> {
    var plan := Plan(UsageTarget(s.journal), RowState(s.rows, id));
    if plan.Ok? then plan.value else []
  }

  lemma FollowWritesPlan(id: ReservationId, s: System, outcome: Outcome, first: int, second: int)
    requires Consistent(id, s)
    ensures var writes := FollowWrites(s.rows, id, UsageTarget(s.journal), outcome, first, second);
      writes.Ok? && Written(id, PlanOf(id, s), writes.value)
  {
    var row := RowState(s.rows, id);
    PlanWalks(s.journal, row);
    var plan := Plan(UsageTarget(s.journal), row).value;
    if plan != [] {
      ExecuteSucceeds(s.rows, id, Find(s.rows, id).value, plan, outcome, [first, second]);
    }
  }

  /** A crash after any number of writes, or none, leaves the row as it was or in a planned state. */
  lemma ReachedIsWritten(id: ReservationId, rows: Rows, plan: seq<TargetState>, writes: seq<Rows>, done: nat)
    requires Written(id, plan, writes)
    ensures var r := Reached(rows, writes, done);
      if done == 0 || plan == [] then r == rows
      else
        var last := if done <= |plan| then plan[done - 1] else plan[|plan| - 1];
        ValidBucket(id.identity, r) && RowState(r, id) == Some(last) && Unconsumed(r, id)
  {
  }

  /** In a consistent system `follow` never meets an illegal ledger move, and every prefix of its writes stays
      consistent. */
  lemma FollowNeverIllegal(id: ReservationId, s: System, outcome: Outcome, first: int, second: int, done: nat)
    requires Consistent(id, s)
    ensures var writes := FollowWrites(s.rows, id, UsageTarget(s.journal), outcome, first, second);
      writes.Ok? && Consistent(id, s.(rows := Reached(s.rows, writes.value, done)))
  {
    FollowWritesPlan(id, s, outcome, first, second);
    PlanWalks(s.journal, RowState(s.rows, id));
    var writes := FollowWrites(s.rows, id, UsageTarget(s.journal), outcome, first, second).value;
    ReachedIsWritten(id, s.rows, PlanOf(id, s), writes, done);
  }

  /** Where a completed `follow` leaves the row: at the journal's target, never behind it. */
  predicate CaughtUp(target: State, row: Option<State>) {
    match target
    case Reserved => true
    case Submitted => row == Some(Submitted) || row == Some(UnknownFinality)
    case FailedBeforeEffect => row.None? || row == Some(FailedBeforeEffect)
    case _ => row == Some(target)
  }

  lemma CaughtUpHasNoPlan(j: Journal, row: Option<State>)
    requires Agree(j, row) && CaughtUp(UsageTarget(j), row)
    ensures Plan(UsageTarget(j), row) == Ok([])
  {
  }

  /** The last state of a plan, or the row as it is when there is nothing to do, has caught up. */
  lemma PlanCatchesUp(j: Journal, row: Option<State>)
    requires Agree(j, row)
    ensures var plan := Plan(UsageTarget(j), row);
      plan.Ok? && CaughtUp(UsageTarget(j), if plan.value == [] then row else Some(plan.value[|plan.value| - 1]))
  {
  }

  /** The rows a completed `follow` leaves. */
  function FollowedRows(id: ReservationId, s: System, outcome: Outcome, first: int, second: int): Rows {
    var writes := FollowWrites(s.rows, id, UsageTarget(s.journal), outcome, first, second);
    if writes.Ok? then Reached(s.rows, writes.value, |writes.value|) else s.rows
  }

  lemma FollowCatchesUp(id: ReservationId, s: System, outcome: Outcome, first: int, second: int)
    requires Consistent(id, s)
    ensures var rows := FollowedRows(id, s, outcome, first, second);
      CaughtUp(UsageTarget(s.journal), RowState(rows, id)) && Consistent(id, s.(rows := rows))
  {
    PlanCatchesUp(s.journal, RowState(s.rows, id));
    FollowWritesPlan(id, s, outcome, first, second);
    var writes := FollowWrites(s.rows, id, UsageTarget(s.journal), outcome, first, second).value;
    ReachedIsWritten(id, s.rows, PlanOf(id, s), writes, |writes|);
    FollowNeverIllegal(id, s, outcome, first, second, |writes|);
  }

  /** A completed `follow` catches up, and repeating it with any evidence and any clock writes nothing. */
  lemma FollowTwiceIsFollowOnce(id: ReservationId, s: System, outcome: Outcome, first: int, second: int, again: Outcome,
                                third: int, fourth: int)
    requires Consistent(id, s)
    ensures FollowWrites(FollowedRows(id, s, outcome, first, second), id, UsageTarget(s.journal), again, third,
                         fourth) == Ok([])
  {
    FollowCatchesUp(id, s, outcome, first, second);
    CaughtUpHasNoPlan(s.journal, RowState(FollowedRows(id, s, outcome, first, second), id));
  }

  // ---------------------------------------------------------------- every run

  lemma NextKeepsConsistent(codec: AP.Codec, id: ReservationId, s: System, e: Event)
    requires Consistent(id, s)
    ensures Consistent(id, Next(codec, id, s, e))
  {
    if Enabled(id, s, e) {
      match e
      case Hold(input) => CommandKeepsConsistent(codec, id, s, ReserveCommand(input));
      case Advance(to) =>
      case Follow(outcome, first, second, done) => FollowNeverIllegal(id, s, outcome, first, second, done);
      case Other(c) => CommandKeepsConsistent(codec, id, s, c);
    }
  }

  lemma CommandKeepsConsistent(codec: AP.Codec, id: ReservationId, s: System, c: Command)
    requires Consistent(id, s)
    requires KeyOf(c) != id.key
          || (s.journal.state == AwaitingApproval && c.ReserveCommand? && !c.reserve.retryFailedBeforeEffect)
    ensures Consistent(id, s.(rows := ApplyRows(codec, id, s.rows, c)))
  {
    var r := Apply(codec, id.identity, s.rows, c);
    if r.Ok? {
      ApplyShape(codec, id.identity, s.rows, c);
      ShapeKeepsBucket(id.identity, s.rows, r.value, c);
      if KeyOf(c) != id.key {
        OtherRowsUntouched(id.identity, s.rows, r.value, c, id);
      } else {
        OwnHold(id, s.rows, r.value, c);
      }
    }
  }

  /** At approval, reserving the operation's own key leaves it held once: created, or replayed unchanged. */
  lemma OwnHold(id: ReservationId, rows: Rows, a: Applied, c: Command)
    requires ValidBucket(id.identity, rows) && Shape(rows, a, c) && a.record.id == id && ValidReservation(a.record)
    requires c.ReserveCommand? && !c.reserve.retryFailedBeforeEffect
    requires RowState(rows, id) in {None, Some(Reserved)}
    ensures RowState(a.rows, id) in {None, Some(Reserved)} && Unconsumed(a.rows, id)
  {
    ShapeKeepsBucket(id.identity, rows, a, c);
    if a.rows == rows + [a.record] {
      assert a.rows[|rows|].id == id;
      assert a.rows[FindIndex(a.rows, id).value].id == id;
    }
  }

  lemma {:induction false} RunKeepsConsistent(codec: AP.Codec, id: ReservationId, s: System, es: seq<Event>)
    requires Consistent(id, s)
    ensures Consistent(id, RunSystem(codec, id, s, es))
    decreases |es|
  {
    if es != [] {
      NextKeepsConsistent(codec, id, s, es[0]);
      RunKeepsConsistent(codec, id, Next(codec, id, s, es[0]), es[1..]);
    }
  }

  predicate NeverCharged(r: Reservation) {
    r.state in {FailedBeforeEffect, ReleasedUnsubmitted} || (r.state == FailedConfirmedRevert && r.consumed.None?)
  }

  /** The journal proves the principal was not spent: nothing was sent, it reverted, another transaction took its
      nonce, or its owner abandoned it before dispatch. */
  predicate ProvesUnspent(j: Journal) {
    j.state in {FailedBefore, ConfirmedRevert, ProvenSuperseded} || (j.state == AbandonedUnknown && j.undispatched)
  }

  /** Journal and ledger never disagree: from an empty bucket and a prepared operation, after any run, the next `follow`
      is legal, and the operation's hold is uncharged only when the journal proves the principal unspent. */
  lemma JournalAndLedgerAgree(codec: AP.Codec, id: ReservationId, es: seq<Event>, outcome: Outcome, first: int,
                              second: int)
    ensures var s := RunSystem(codec, id, System(Journal(AwaitingApproval, false), []), es);
      && FollowWrites(s.rows, id, UsageTarget(s.journal), outcome, first, second).Ok?
      && var row := Find(s.rows, id);
         (row.Some? && NeverCharged(row.value) ==> ProvesUnspent(s.journal))
  {
    var s0 := System(Journal(AwaitingApproval, false), []);
    RunKeepsConsistent(codec, id, s0, es);
    FollowNeverIllegal(id, RunSystem(codec, id, s0, es), outcome, first, second, 0);
  }
}
