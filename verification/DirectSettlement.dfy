/** What a followed direct operation leaves in the shared ledger, journal state by journal state. */
module DirectSettlement {
  import opened Basics
  import AP = AssetPolicy
  import opened UsageRecord
  import opened UsageBucket
  import opened UsageBucketProofs
  import LM = LedgerMeaning
  import opened DirectGate

  /** What can precede each journal state: approval starts an operation, a start signs it or fails it, and only a signed
      one can be sent, lose its finality, and end; an ended one never moves. */
  lemma JournalPredecessors(from: JournalState, to: JournalState)
    ensures JournalAllows(from, to) <==>
      match to
      case AwaitingApproval => false
      case Started => from == AwaitingApproval
      case SignedNotSubmitted => from == Started
      case FailedBefore => from in {AwaitingApproval, Started}
      case _ => from in {SignedNotSubmitted, SubmittedPending, FinalityUnknown}
  {
  }

  /** Where the operation's row belongs, given its journal and where the row was: before a broadcast it is left alone;
      from then on the row says what the journal says, and an uncertain row is not made certain by a broadcast. */
  predicate Settled(j: Journal, was: Option<State>, row: Option<State>) {
    match j.state
    case AwaitingApproval | Started | SignedNotSubmitted => row == was
    case SubmittedPending => row == (if was == Some(UnknownFinality) then was else Some(Submitted))
    case FinalityUnknown => row == Some(UnknownFinality)
    case Completed => row == Some(Finalized)
    case ConfirmedRevert | ProvenSuperseded => row == Some(FailedConfirmedRevert)
    case FailedBefore => row == (if was.None? then None else Some(FailedBeforeEffect))
    case AbandonedUnknown => row == Some(if j.undispatched then FailedBeforeEffect else UnknownFinality)
  }

  lemma PlanSettles(j: Journal, row: Option<State>)
    requires Agree(j, row)
    ensures var plan := Plan(UsageTarget(j), row);
      && plan.Ok? && Settled(j, row, if plan.value == [] then row else Some(plan.value[|plan.value| - 1]))
      && (plan.value == [] <==> Settled(j, row, row))
      && (|plan.value| > 1 ==> row == Some(Reserved) && plan.value == [Submitted, FailedConfirmedRevert])
  {
  }

  /** Journal state by journal state, the rows a `follow` refuses as contradicting it. */
  lemma PlanAnswers(j: Journal, row: Option<State>)
    ensures Plan(UsageTarget(j), row).Ok? <==>
      match j.state
      case AwaitingApproval | Started | SignedNotSubmitted => true
      case SubmittedPending | FinalityUnknown => Undecided(row)
      case Completed => Undecided(row) || row == Some(Finalized)
      case ConfirmedRevert | ProvenSuperseded => Undecided(row) || row == Some(FailedConfirmedRevert)
      case FailedBefore => row in {None, Some(Reserved), Some(FailedBeforeEffect)}
      case AbandonedUnknown =>
        if j.undispatched then row in {None, Some(Reserved), Some(FailedBeforeEffect)} else Undecided(row)
    ensures Plan(UsageTarget(j), row).Err? ==> Plan(UsageTarget(j), row) == Err(StateCorrupt)
  {
  }

  /** A row there is, in none of the rail's own final states. */
  predicate Undecided(row: Option<State>) {
    row.Some? && row.value !in {Finalized, FailedBeforeEffect, FailedConfirmedRevert}
  }

  /** A completed `follow` in a consistent system settles the operation's row. */
  lemma FollowSettles(id: ReservationId, s: System, outcome: Outcome, first: int, second: int)
    requires Consistent(id, s)
    ensures Settled(s.journal, RowState(s.rows, id), RowState(FollowedRows(id, s, outcome, first, second), id))
  {
    PlanSettles(s.journal, RowState(s.rows, id));
    FollowWritesPlan(id, s, outcome, first, second);
    var writes := FollowWrites(s.rows, id, UsageTarget(s.journal), outcome, first, second).value;
    ReachedIsWritten(id, s.rows, PlanOf(id, s), writes, |writes|);
  }

  /** What each event of a run does: a hold is asked for before approval ends, under the operation's own key; the
      journal moves along its table, starting only with a hold; a follow does its planned writes as far as it gets;
      other commands use other keys. */
  lemma EventMeaning(codec: AP.Codec, id: ReservationId, s: System, e: Event)
    ensures var t := Next(codec, id, s, e);
      match e
      case Hold(input) =>
        var r := Apply(codec, id.identity, s.rows, ReserveCommand(input));
        && t.journal == s.journal
        && t.rows == (if s.journal.state == AwaitingApproval && input.key == id.key
                         && !input.retryFailedBeforeEffect && r.Ok? then r.value.rows else s.rows)
      case Advance(to) =>
        t == if JournalAllows(s.journal.state, to.state) && (to.state == Started ==> Find(s.rows, id).Some?)
                && (to.undispatched ==> to.state == AbandonedUnknown && s.journal.state == SignedNotSubmitted)
             then System(to, s.rows) else s
      case Follow(outcome, first, second, done) =>
        var writes := FollowWrites(s.rows, id, UsageTarget(s.journal), outcome, first, second);
        && t.journal == s.journal
        && (writes.Ok? && 1 <= done <= |writes.value| ==> t.rows == writes.value[done - 1])
        && (writes.Ok? && done >= |writes.value| ==> t.rows == FollowedRows(id, s, outcome, first, second))
        && (writes.Err? || done == 0 ==> t.rows == s.rows)
      case Other(c) =>
        var r := Apply(codec, id.identity, s.rows, c);
        t.journal == s.journal && t.rows == (if KeyOf(c) != id.key && r.Ok? then r.value.rows else s.rows)
  {
  }

  /** After any run and a completed `follow`: the operation's row is where its journal says; it is uncharged for ever if
      and only if the journal proves the principal unspent; and a completed transfer is spent in full on one day. */
  lemma FollowedOperationIsCharged(codec: AP.Codec, id: ReservationId, es: seq<Event>, outcome: Outcome, first: int,
                                   second: int, day: int)
    ensures var s := RunSystem(codec, id, System(Journal(AwaitingApproval, false), []), es);
      var row := Find(FollowedRows(id, s, outcome, first, second), id);
      && Settled(s.journal, RowState(s.rows, id), RowState(FollowedRows(id, s, outcome, first, second), id))
      && (row.None? ==> s.journal.state in {AwaitingApproval, FailedBefore})
      && (row.Some? ==> (NeverCharged(row.value) <==> ProvesUnspent(s.journal)))
      && (row.Some? && ProvesUnspent(s.journal) ==> Charge(row.value, day) == SpentOn(row.value, day) == 0)
      && (row.Some? && s.journal.state == Completed ==>
            row.value.effectAt.Some? && SpentOn(row.value, Day(row.value.effectAt.value)) == row.value.amount > 0)
      && (row.Some? && !ProvesUnspent(s.journal) && s.journal.state != Completed ==>
            Charge(row.value, day) == row.value.amount > 0)
  {
    var s0 := System(Journal(AwaitingApproval, false), []);
    RunKeepsConsistent(codec, id, s0, es);
    var s := RunSystem(codec, id, s0, es);
    FollowSettles(id, s, outcome, first, second);
    FollowCatchesUp(id, s, outcome, first, second);
    var rows := FollowedRows(id, s, outcome, first, second);
    if Find(rows, id).Some? { SettledRowCounts(id, s.journal, RowState(s.rows, id), rows, day); }
  }

  /** The journal proves the principal unspent exactly in these states. */
  lemma Unspent(j: Journal)
    ensures ProvesUnspent(j) <==>
      j.state !in {AwaitingApproval, Started, SignedNotSubmitted, SubmittedPending, FinalityUnknown, Completed}
      && (j.state == AbandonedUnknown ==> j.undispatched)
  {
  }

  lemma SettledRowCounts(id: ReservationId, j: Journal, was: Option<State>, rows: Rows, day: int)
    requires ValidBucket(id.identity, rows) && Unconsumed(rows, id) && Find(rows, id).Some? && Agree(j, was)
    requires Agree(j, RowState(rows, id)) && Settled(j, was, RowState(rows, id))
    ensures var r := Find(rows, id).value;
      && (NeverCharged(r) <==> ProvesUnspent(j))
      && (ProvesUnspent(j) ==> Charge(r, day) == SpentOn(r, day) == 0)
      && (j.state == Completed ==> r.effectAt.Some? && SpentOn(r, Day(r.effectAt.value)) == r.amount > 0)
      && (!ProvesUnspent(j) && j.state != Completed ==> Charge(r, day) == r.amount > 0)
  {
    var r := Find(rows, id).value;
    assert r in rows;
    if r.state in {Reserved, Submitted, UnknownFinality} {
      LM.OpenRowCharges(r, day);
    } else {
      LM.ClosedRowCharges(r, day);
      if j.state == Completed { LM.ClosedRowCharges(r, Day(r.effectAt.value)); }
    }
  }
}
