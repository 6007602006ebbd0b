/** What the Coinbase gasless rail asks of the owner's policy, and what it leaves in the shared ledger. */
module GaslessSettlement {
  import opened Basics
  import AP = AssetPolicy
  import PC = PolicyCompiler
  import CR = CompiledRegistry
  import PM = PolicyMeaning
  import opened UsageRecord
  import opened UsageBucket
  import opened UsageBucketProofs
  import LM = LedgerMeaning
  import opened UsageLedger
  import opened GaslessRail

  // ---------------------------------------------------------------- reconcile

  /** The lease is the operation's: frozen policy, amount and rail. */
  predicate Binds(lease: Reservation, op: Operation, binding: Binding) {
    lease.policyDigest == binding.policyDigest && lease.amount == op.amount && lease.rail == AP.Gasless
  }

  /** Which lease states an operation's journal can meet without contradiction. */
  predicate Compatible(op: Operation, recovering: bool, lease: State) {
    match op.state
    case AwaitingApproval => true
    case Started => recovering ==> lease in {Reserved, UnknownFinality, Finalized}
    case Completed => lease in {Reserved, UnknownFinality, Finalized}
    case FailedBefore => lease in {Reserved, FailedBeforeEffect}
    case _ => lease in {Reserved, UnknownFinality, Finalized}
  }

  /** The lease state a reconcile leaves: a completed operation's is final, a failed one's is given back, an uncertain
      one keeps its charge, and one the provider was not asked about yet is left alone. */
  function LeftIn(op: Operation, recovering: bool, lease: State): State {
    match op.state
    case AwaitingApproval => lease
    case Started => if recovering && lease == Reserved then UnknownFinality else lease
    case Completed => Finalized
    case FailedBefore => FailedBeforeEffect
    case _ => if lease == Reserved then UnknownFinality else lease
  }

  /** A reconcile is refused exactly when the journal names a lease the ledger does not hold, the lease is not the
      operation's, or their states contradict. */
  lemma ReconcileAnswers(rows: Rows, op: Operation, binding: Binding, recovering: bool, now: int)
    requires ValidBucket(IdentityOf(op), rows)
    ensures var r := Reconciled(rows, op, binding, recovering, now);
      && (r.Ok? <==>
            match Find(rows, IdOf(op))
            case None => op.state in {AwaitingApproval, FailedBefore}
            case Some(lease) => Binds(lease, op, binding) && Compatible(op, recovering, lease.state))
      && (r.Err? ==> r == Err(StateCorrupt))
  {
    if ReconcileMove(rows, op, binding, recovering, now).Ok? {
      ReconcileKeepsUncertainCharged(rows, op, binding, recovering, now, 0);
    }
  }

  lemma MoveTarget(rows: Rows, op: Operation, binding: Binding, recovering: bool, now: int)
    requires Find(rows, IdOf(op)).Some? && ReconcileMove(rows, op, binding, recovering, now).Ok?
    ensures var lease := Find(rows, IdOf(op)).value;
      var move := ReconcileMove(rows, op, binding, recovering, now).value;
      && (move.None? <==> LeftIn(op, recovering, lease.state) == lease.state)
      && (move.Some? ==>
            && move.value.state == LeftIn(op, recovering, lease.state) && lease.state in {Reserved, UnknownFinality}
            && move.value.id == IdOf(op) && move.value.now == now && move.value.effectAt.None?
            && move.value.consumed.None?
            && (Terminal(move.value.state) ==> move.value.outcome == Some(Evidence(op.integrityHash))))
  {
  }

  /** What a completed reconcile leaves: the operation's lease in that state, with the journal's evidence when it
      settled it, and every other row as it was. */
  lemma ReconcileLeaves(rows: Rows, op: Operation, binding: Binding, recovering: bool, now: int)
    requires ValidBucket(IdentityOf(op), rows) && Reconciled(rows, op, binding, recovering, now).Ok?
    requires Find(rows, IdOf(op)).Some?
    ensures var after := Reconciled(rows, op, binding, recovering, now).value;
      var was, row := Find(rows, IdOf(op)).value, Find(after, IdOf(op));
      && row.Some? && row.value.state == LeftIn(op, recovering, was.state)
      && row.value.amount == was.amount == op.amount
      && (forall id :: id != IdOf(op) ==> Find(after, id) == Find(rows, id))
      && (row.value.state == was.state ==> after == rows)
      && (row.value.state != was.state ==> LM.Stamped(rows, now, row.value.updatedAt))
      && (row.value.state != was.state && op.state in {Completed, FailedBefore} ==>
            row.value.outcome == Some(Evidence(op.integrityHash)))
      && (row.value.state != was.state && op.state == Completed ==> row.value.effectAt == Some(row.value.updatedAt))
  {
    ReconciledBy(rows, op, binding, recovering, now);
    MoveTarget(rows, op, binding, recovering, now);
    LeavesBy(rows, Reconciled(rows, op, binding, recovering, now).value, op, recovering, now,
             ReconcileMove(rows, op, binding, recovering, now).value);
  }

  lemma ReconciledBy(rows: Rows, op: Operation, binding: Binding, recovering: bool, now: int)
    requires Reconciled(rows, op, binding, recovering, now).Ok? && Find(rows, IdOf(op)).Some?
    ensures ReconcileMove(rows, op, binding, recovering, now).Ok? && Find(rows, IdOf(op)).value.amount == op.amount
    ensures MadeBy(rows, Reconciled(rows, op, binding, recovering, now).value,
                   ReconcileMove(rows, op, binding, recovering, now).value)
  {
  }

  /** The rows after a move, or without one. */
  predicate MadeBy(rows: Rows, after: Rows, move: Option<TransitionInput>) {
    if move.None? then after == rows
    else Transition(rows, move.value).Ok? && after == Transition(rows, move.value).value.rows
  }

  lemma LeavesBy(rows: Rows, after: Rows, op: Operation, recovering: bool, now: int, move: Option<TransitionInput>)
    requires ValidBucket(IdentityOf(op), rows) && Find(rows, IdOf(op)).Some? && MadeBy(rows, after, move)
    requires move.None? <==>
      LeftIn(op, recovering, Find(rows, IdOf(op)).value.state) == Find(rows, IdOf(op)).value.state
    requires move.Some? ==>
      && move.value.state == LeftIn(op, recovering, Find(rows, IdOf(op)).value.state)
      && move.value.id == IdOf(op) && move.value.now == now && move.value.effectAt.None?
      && (Terminal(move.value.state) ==> move.value.outcome == Some(Evidence(op.integrityHash)))
    ensures var was, row := Find(rows, IdOf(op)).value, Find(after, IdOf(op));
      && row.Some? && row.value.state == LeftIn(op, recovering, was.state) && row.value.amount == was.amount
      && (forall id :: id != IdOf(op) ==> Find(after, id) == Find(rows, id))
      && (row.value.state == was.state ==> after == rows)
      && (row.value.state != was.state ==> LM.Stamped(rows, now, row.value.updatedAt))
      && (row.value.state != was.state && op.state in {Completed, FailedBefore} ==>
            row.value.outcome == Some(Evidence(op.integrityHash)))
      && (row.value.state != was.state && op.state == Completed ==> row.value.effectAt == Some(row.value.updatedAt))
  {
    if move.Some? { MoveLeaves(rows, op, move.value); }
  }

  lemma MoveLeaves(rows: Rows, op: Operation, input: TransitionInput)
    requires ValidBucket(IdentityOf(op), rows) && Transition(rows, input).Ok? && input.id == IdOf(op)
    requires input.state != Find(rows, IdOf(op)).value.state && input.effectAt.None?
    ensures var after, was := Transition(rows, input).value.rows, Find(rows, IdOf(op)).value;
      var row := Find(after, IdOf(op));
      && row.Some? && row.value.state == input.state && row.value.amount == was.amount
      && (forall id :: id != IdOf(op) ==> Find(after, id) == Find(rows, id))
      && LM.Stamped(rows, input.now, row.value.updatedAt)
      && (Terminal(input.state) ==> row.value.outcome == input.outcome)
      && (input.state == Finalized ==> row.value.effectAt == Some(row.value.updatedAt))
  {
    LM.TransitionStores(IdentityOf(op), rows, input);
  }

  /** And what the books show: a completed operation's whole amount is spent on the day it is recorded, a failed one's
      is given back to every day, and any other reconcile leaves every day's usage and spend alone. */
  lemma ReconcileCharges(rows: Rows, op: Operation, binding: Binding, recovering: bool, now: int, day: int)
    requires ValidBucket(IdentityOf(op), rows) && Reconciled(rows, op, binding, recovering, now).Ok?
    requires OpenAt(rows, IdOf(op))
    ensures var after := Reconciled(rows, op, binding, recovering, now).value;
      Find(after, IdOf(op)).Some? &&
      var on := Day(Find(after, IdOf(op)).value.updatedAt);
      match op.state
      case Completed =>
        && Total(SpendAt(day), after) == Total(SpendAt(day), rows) + (if day == on then op.amount else 0)
        && Usage(after, day) + (if day > on then op.amount else 0) == Usage(rows, day)
      case FailedBefore =>
        Usage(after, day) + op.amount == Usage(rows, day) && Total(SpendAt(day), after) == Total(SpendAt(day), rows)
      case _ => Usage(after, day) == Usage(rows, day) && Total(SpendAt(day), after) == Total(SpendAt(day), rows)
  {
    var move := ReconcileMove(rows, op, binding, recovering, now).value;
    ReconcileLeaves(rows, op, binding, recovering, now);
    MoveTarget(rows, op, binding, recovering, now);
    if move.Some? { MoveCharges(rows, op, recovering, move.value, day); }
  }

  lemma MoveCharges(rows: Rows, op: Operation, recovering: bool, input: TransitionInput, day: int)
    requires ValidBucket(IdentityOf(op), rows) && Transition(rows, input).Ok? && input.id == IdOf(op)
    requires OpenAt(rows, IdOf(op)) && Find(rows, IdOf(op)).value.amount == op.amount && input.consumed.None?
    requires input.state == LeftIn(op, recovering, Find(rows, IdOf(op)).value.state) != Find(rows, IdOf(op)).value.state
    requires op.state == Completed ==> input.effectAt.None?
    ensures var after := Transition(rows, input).value.rows;
      Find(after, IdOf(op)).Some? &&
      var on := Day(Find(after, IdOf(op)).value.updatedAt);
      match op.state
      case Completed =>
        && Total(SpendAt(day), after) == Total(SpendAt(day), rows) + (if day == on then op.amount else 0)
        && Usage(after, day) + (if day > on then op.amount else 0) == Usage(rows, day)
      case FailedBefore =>
        Usage(after, day) + op.amount == Usage(rows, day) && Total(SpendAt(day), after) == Total(SpendAt(day), rows)
      case _ => Usage(after, day) == Usage(rows, day) && Total(SpendAt(day), after) == Total(SpendAt(day), rows)
  {
    LM.TransitionStores(IdentityOf(op), rows, input);
    LM.TransitionCharges(IdentityOf(op), rows, input, day);
  }

  /** A reconcile turns a charged lease into one that no day is charged for if and only if the operation failed before
      effect. */
  lemma OnlyFailureFrees(rows: Rows, op: Operation, binding: Binding, recovering: bool, now: int)
    requires ValidBucket(IdentityOf(op), rows) && Reconciled(rows, op, binding, recovering, now).Ok?
    requires OpenAt(rows, IdOf(op))
    ensures var after := Reconciled(rows, op, binding, recovering, now).value;
      Find(after, IdOf(op)).Some? &&
      ((forall day: int :: Charge(Find(after, IdOf(op)).value, day) == 0) <==> op.state == FailedBefore)
  {
    var after := Reconciled(rows, op, binding, recovering, now).value;
    ReconcileLeaves(rows, op, binding, recovering, now);
    ReconcileAnswers(rows, op, binding, recovering, now);
    ReconciledIsValid(rows, op, binding, recovering, now);
    var row := Find(after, IdOf(op)).value;
    assert row in after;
    if op.state == FailedBefore {
      forall day: int ensures Charge(row, day) == 0 { LM.ClosedRowCharges(row, day); }
    } else if row.state == Finalized {
      LM.ClosedRowCharges(row, Day(row.effectAt.value));
    } else {
      LM.OpenRowCharges(row, 0);
    }
  }

  lemma ReconciledIsValid(rows: Rows, op: Operation, binding: Binding, recovering: bool, now: int)
    requires ValidBucket(IdentityOf(op), rows) && Reconciled(rows, op, binding, recovering, now).Ok?
    requires OpenAt(rows, IdOf(op))
    ensures var after := Reconciled(rows, op, binding, recovering, now).value;
      ValidBucket(IdentityOf(op), after)
      && (Find(after, IdOf(op)).Some? ==>
           Find(after, IdOf(op)).value.consumed.None? && Find(after, IdOf(op)).value.actualFee.None?)
  {
    var move := ReconcileMove(rows, op, binding, recovering, now).value;
    assert Find(rows, IdOf(op)).value in rows;
    MoveTarget(rows, op, binding, recovering, now);
    if move.Some? {
      var c := TransitionCommand(move.value);
      LM.TransitionStores(IdentityOf(op), rows, move.value);
      TransitionShape(IdentityOf(op), rows, c);
      ShapeKeepsBucket(IdentityOf(op), rows, Transition(rows, move.value).value, c);
    }
  }

  // ---------------------------------------------------------------- the owner's word

  /** The request the rail puts to the policy: Base USDC to send gasless, given what everything else is charged. */
  function RequestOf(op: Operation, usage: nat, now: int): AP.Request {
    AP.Request("eip155:8453", AP.Token, Some("0x833589fCD6eDb6E08f4c7C32D4f71b54bdA02913"), AP.Gasless, None, op.amount,
               usage, Day(now), Some(now))
  }

  /** An owner row admits this transfer: Base USDC with six decimals on the gasless rail, pinned to the provider's exact
      mechanism and to this recipient, fitting the amount beside the day's other usage. */
  ghost predicate OwnerAdmits(codec: AP.Codec, inv: PC.Inventory, a: PC.OwnerRow, op: Operation, usage: nat, now: int) {
    && PM.Names(codec, inv, a, RequestOf(op, usage, now)) && PM.Fits(a, RequestOf(op, usage, now))
    && inv.resolve(a).value.decimals == 6 && a.recipient == Some(op.recipient)
    && a.mechanism ==
         Some(AP.Provider(AP.ProviderPin("coinbase-agentic-wallet", "awal@2.12.1:send_base_usdc:eip155:8453")))
  }

  /** The policy is in force and some owner row admits the transfer beside that usage. */
  ghost predicate PolicyAdmits(codec: AP.Codec, inv: PC.Inventory, o: PC.Overlay, active: ActivePolicy, op: Operation,
                               usage: nat, now: int)
  {
    && active.evmAccount == op.account && active.digest == active.registry.policyDigest
    && PM.InForce(o, RequestOf(op, usage, now))
    && exists a :: a in o.rows && OwnerAdmits(codec, inv, a, op, usage, now)
  }

  /** The policy admits the transfer if and only if it is the account's and sealed as named, it is in force, and an
      owner row admits it. */
  lemma AdmitMeaning(codec: AP.Codec, inv: PC.Inventory, o: PC.Overlay, active: ActivePolicy, op: Operation, usage: nat,
                     now: int)
    requires PM.Sealed(codec, inv, o, active.registry)
    ensures Admit(codec, active, op, usage, now).Ok? <==> PolicyAdmits(codec, inv, o, active, op, usage, now)
  {
    var q := RequestOf(op, usage, now);
    if AP.Evaluate(codec, active.registry, q).Ok? {
      var a := PM.AdmittedIsNamed(codec, inv, o, active.registry, q);
      AdmittedRow(codec, inv, o, active, op, usage, now, a);
      forall b | b in o.rows && OwnerAdmits(codec, inv, b, op, usage, now)
        ensures Admit(codec, active, op, usage, now).Ok? <==>
          active.evmAccount == op.account && active.digest == active.registry.policyDigest
      {
        AdmittedRow(codec, inv, o, active, op, usage, now, b);
      }
    }
    PM.EvaluateMeaning(codec, inv, o, active.registry, q);
  }

  lemma AdmittedRow(codec: AP.Codec, inv: PC.Inventory, o: PC.Overlay, active: ActivePolicy, op: Operation, usage: nat,
                    now: int, a: PC.OwnerRow)
    requires PM.Sealed(codec, inv, o, active.registry) && a in o.rows
    requires PM.Names(codec, inv, a, RequestOf(op, usage, now))
    requires AP.Evaluate(codec, active.registry, RequestOf(op, usage, now)).Ok?
    ensures Admit(codec, active, op, usage, now).Ok? <==>
      && active.evmAccount == op.account && active.digest == active.registry.policyDigest
      && OwnerAdmits(codec, inv, a, op, usage, now)
  {
    var q := RequestOf(op, usage, now);
    var _ := PM.AdmittedIsNamed(codec, inv, o, active.registry, q);
    PM.NamedVerdict(codec, inv, o, active.registry, q, a);
    RowSaysOf(codec, inv, o, a);
    PinnedRow(op, AP.Evaluate(codec, active.registry, q), a, inv.resolve(a).value.decimals);
  }

  lemma RowSaysOf(codec: AP.Codec, inv: PC.Inventory, o: PC.Overlay, a: PC.OwnerRow)
    requires PC.Accepted(codec, inv, o) && CR.GoodInventory(codec, inv, o.rows) && a in o.rows
    ensures inv.resolve(a).Some?
    ensures var c := inv.resolve(a).value;
      PC.RowFor(inv, o.rows, c).decimals == c.decimals && PM.SaysOfRail(PC.RowFor(inv, o.rows, c), a.rail, Some(a))
  {
    PM.MemberFacts(codec, inv, o, a);
    PM.RowSays(codec, inv, o.rows, inv.resolve(a).value, a.rail);
  }

  /** What the rail demands of the admitted row, read off the owner's own. */
  lemma PinnedRow(op: Operation, admitted: Result<AP.Admission>, a: PC.OwnerRow, decimals: nat)
    requires admitted.Ok? && PM.SaysOfRail(admitted.value.row, AP.Gasless, Some(a))
    requires admitted.value.row.decimals == decimals
    ensures AdmitAnswer(op, admitted).Ok? <==>
      && decimals == 6 && a.recipient == Some(op.recipient)
      && a.mechanism ==
           Some(AP.Provider(AP.ProviderPin("coinbase-agentic-wallet", "awal@2.12.1:send_base_usdc:eip155:8453")))
  {
  }

  /** The policy frozen when the operation was prepared is the active one. */
  predicate FrozenIsActive(active: ActivePolicy, binding: Binding) {
    active.digest == binding.policyDigest && active.revision == binding.revision
    && active.activation == binding.activation
  }

  /** A hold the check may set aside: the operation's, untouched, and reserved today. */
  predicate HeldToday(lease: Reservation, op: Operation, binding: Binding, now: int) {
    Binds(lease, op, binding) && lease.state == Reserved && Day(lease.reservedAt) == Day(now)
  }

  /** What a day charges for everything but the operation. */
  function OthersOf(rows: Rows, op: Operation, day: int): nat {
    if Usage(rows, day) >= op.amount then Usage(rows, day) - op.amount else 0
  }

  lemma OthersMeaning(rows: Rows, active: ActivePolicy, op: Operation, binding: Binding, now: int)
    ensures var others, held := OthersToday(rows, active, op, binding, now), Find(rows, IdOf(op));
      && (others.Ok? <==>
            && FrozenIsActive(active, binding) && Usage(rows, Day(now)) <= MAX_UINT256
            && (held.Some? ==> HeldToday(held.value, op, binding, now)))
      && (others.Ok? && held.None? ==> others.value == Usage(rows, Day(now)))
      && (others.Ok? && held.Some? ==>
            others.value + op.amount == Usage(rows, Day(now)) && others.value == OthersOf(rows, op, Day(now)))
  {
  }

  /** The whole check, for an operation with no hold yet: it passes if and only if the policy frozen at preparation is
      the active one, and an owner row admits the transfer beside everything charged today. */
  lemma FirstCheckMeaning(codec: AP.Codec, inv: PC.Inventory, o: PC.Overlay, rows: Rows, active: ActivePolicy,
                          op: Operation, binding: Binding, now: int)
    requires PM.Sealed(codec, inv, o, active.registry) && Find(rows, IdOf(op)).None?
    ensures CheckPolicy(codec, rows, active, op, binding, now).Ok? <==>
      FrozenIsActive(active, binding) && PolicyAdmits(codec, inv, o, active, op, Usage(rows, Day(now)), now)
  {
    var usage := Usage(rows, Day(now));
    OthersMeaning(rows, active, op, binding, now);
    AdmitMeaning(codec, inv, o, active, op, usage, now);
    if Admit(codec, active, op, usage, now).Ok? { AdmitFits(codec, active, op, usage, now); }
  }

  /** The same check over the operation's own hold: it must be untouched, of the same terms, and held today, and the
      owner row must admit the transfer beside everything else. */
  lemma HeldCheckMeaning(codec: AP.Codec, inv: PC.Inventory, o: PC.Overlay, rows: Rows, active: ActivePolicy,
                         op: Operation, binding: Binding, now: int, lease: Reservation)
    requires PM.Sealed(codec, inv, o, active.registry) && Find(rows, IdOf(op)) == Some(lease)
    ensures CheckPolicy(codec, rows, active, op, binding, now).Ok? <==>
      && FrozenIsActive(active, binding) && HeldToday(lease, op, binding, now)
      && Usage(rows, Day(now)) <= MAX_UINT256
      && PolicyAdmits(codec, inv, o, active, op, OthersOf(rows, op, Day(now)), now)
  {
    OthersMeaning(rows, active, op, binding, now);
    AdmitMeaning(codec, inv, o, active, op, OthersOf(rows, op, Day(now)), now);
  }

  // ---------------------------------------------------------------- reserve

  /** The ledger's own question at its clock reading: the policy is in force and a row of the asset fits the
      transfer. */
  ghost predicate RowFits(codec: AP.Codec, inv: PC.Inventory, o: PC.Overlay, op: Operation, usage: nat, now: int) {
    && PM.InForce(o, RequestOf(op, usage, now))
    && exists a ::
         a in o.rows && PM.Names(codec, inv, a, RequestOf(op, usage, now)) && PM.Fits(a, RequestOf(op, usage, now))
  }

  /** The account and key are well formed. */
  predicate Addressed(codec: AP.Codec, op: Operation) {
    codec.account("eip155:8453", op.account) && Keyed(op.operationId)
  }

  predicate Keyed(operationId: string) {
    |operationId| <= 235 && forall i :: 0 <= i < |operationId| ==> '!' <= operationId[i] <= '~'
  }

  lemma KeyIsAddressed(op: Operation)
    ensures
      && !("apn.metamask-native:" <= KeyFor(op)) && !("apn.cleanup85-native:" <= KeyFor(op))
      && 8 <= |KeyFor(op)| <= 256 && (forall i :: 0 <= i < |KeyFor(op)| ==> '!' <= KeyFor(op)[i] <= '~')
      <==> Keyed(op.operationId)
  {
    var prefix, key := "apn.coinbase-gasless:", KeyFor(op);
    assert |prefix| == 21 && key[5] == 'o' && "apn.metamask-native:"[5] == 'e' && "apn.cleanup85-native:"[5] == 'l';
    forall i | 0 <= i < |op.operationId| ensures key[21 + i] == op.operationId[i] { }
  }

  /** The named row is the one the ledger reads its limit off, whatever mechanism is named. */
  lemma LedgerRow(codec: AP.Codec, inv: PC.Inventory, o: PC.Overlay, active: ActivePolicy, op: Operation, now: int,
                  a: PC.OwnerRow)
    requires PM.Sealed(codec, inv, o, active.registry) && a in o.rows && PM.Names(codec, inv, a, RequestOf(op, 0, now))
    requires PM.InForce(o, RequestOf(op, 0, now))
    ensures var listed := LM.OnUnusedDay(codec, ReserveInputOf(active, op, now));
      && (listed.Ok? <==> PM.Fits(a, RequestOf(op, 0, now)))
      && (listed.Ok? ==>
            listed.value.caps.daily == a.daily && listed.value.row.identifier == IdentityOf(op).identifier)
  {
    PM.MemberFacts(codec, inv, o, a);
    PM.NamedVerdict(codec, inv, o, active.registry, RequestOf(op, 0, now).(mechanism := Some(MECHANISM)), a);
    UsageOnlyAdds(a, op, 0, now);
  }

  /** A gasless row has one cap pair, whatever mechanism is named: the day's usage only counts against its daily
      limit. */
  lemma UsageOnlyAdds(a: PC.OwnerRow, op: Operation, usage: nat, now: int)
    requires PC.BridgeOptionsOf(a).None?
    ensures PM.Fits(a, RequestOf(op, usage, now)) <==> PM.Fits(a, RequestOf(op, 0, now)) && usage + op.amount <= a.daily
    ensures PM.Fits(a, RequestOf(op, 0, now)) <==>
      PM.Fits(a, RequestOf(op, 0, now).(mechanism := Some(MECHANISM)))
  {
  }

  lemma GaslessHasNoOptions(codec: AP.Codec, inv: PC.Inventory, o: PC.Overlay, a: PC.OwnerRow)
    requires PC.Accepted(codec, inv, o) && CR.GoodInventory(codec, inv, o.rows) && a in o.rows && a.rail == AP.Gasless
    ensures PC.BridgeOptionsOf(a).None?
  {
    PM.MemberFacts(codec, inv, o, a);
  }

  lemma LedgerLists(codec: AP.Codec, inv: PC.Inventory, o: PC.Overlay, active: ActivePolicy, op: Operation, usage: nat,
                    now: int)
    requires PM.Sealed(codec, inv, o, active.registry)
    ensures var listed := LM.OnUnusedDay(codec, ReserveInputOf(active, op, now));
      && (listed.Ok? && usage + op.amount <= listed.value.caps.daily <==> RowFits(codec, inv, o, op, usage, now))
      && (listed.Ok? ==> listed.value.row.identifier == IdentityOf(op).identifier)
  {
    if LM.OnUnusedDay(codec, ReserveInputOf(active, op, now)).Ok? {
      var q := RequestOf(op, 0, now).(mechanism := Some(MECHANISM));
      var a := PM.AdmittedIsNamed(codec, inv, o, active.registry, q);
      LedgerRow(codec, inv, o, active, op, now, a);
      GaslessHasNoOptions(codec, inv, o, a);
      UsageOnlyAdds(a, op, usage, now);
    }
    if RowFits(codec, inv, o, op, usage, now) {
      var a :| a in o.rows && PM.Names(codec, inv, a, RequestOf(op, usage, now))
        && PM.Fits(a, RequestOf(op, usage, now));
      LedgerRow(codec, inv, o, active, op, now, a);
      GaslessHasNoOptions(codec, inv, o, a);
      UsageOnlyAdds(a, op, usage, now);
    }
  }

  /** The ledger takes a first hold if and only if it is addressed well and a row of the policy fits the transfer beside
      the day's usage. */
  lemma LedgerTakes(codec: AP.Codec, inv: PC.Inventory, o: PC.Overlay, rows: Rows, active: ActivePolicy, op: Operation,
                    now: int)
    requires PM.Sealed(codec, inv, o, active.registry)
    ensures var input := ReserveInputOf(active, op, now);
      var target := ReserveTarget(codec, input);
      && (target.Ok? && CheckDay(codec, rows, target.value.0, input).Ok? <==>
            Addressed(codec, op) && RowFits(codec, inv, o, op, Usage(rows, Day(now)), now))
      && (target.Ok? ==>
            && target.value.0 == IdOf(op)
            && target.value.0 ==
                 ReservationId(Identity(op.account, "eip155:8453", AP.Token,
                                        Some("0x833589fCD6eDb6E08f4c7C32D4f71b54bdA02913")),
                               "apn.coinbase-gasless:" + op.operationId))
  {
    var input := ReserveInputOf(active, op, now);
    LM.ReserveReaches(codec, input);
    KeyIsAddressed(op);
    LedgerLists(codec, inv, o, active, op, Usage(rows, Day(now)), now);
    if ReserveTarget(codec, input).Ok? { LM.DayHasRoom(codec, rows, input); }
  }

  /** What the ledger then stores for the operation, and what the last check makes of it. */
  lemma TakenIsRechecked(codec: AP.Codec, rows: Rows, active: ActivePolicy, op: Operation, binding: Binding,
                         listed: AP.Admission, second: int, third: int, checked: Result<AP.Admission>)
    requires ValidBucket(IdentityOf(op), rows) && Find(rows, IdOf(op)).None?
    requires listed.policyDigest == binding.policyDigest && listed.amount == op.amount && listed.rail == AP.Gasless
    ensures var held := ReserveChecked(rows, IdOf(op), listed, false, second, checked);
      held.Ok? ==>
        (Recheck(codec, held.value, active, op, binding, third).Ok? <==>
          CheckPolicy(codec, rows, active, op, binding, third).Ok? && Day(BucketStamp(rows, second)) == Day(third))
  {
    var held := ReserveChecked(rows, IdOf(op), listed, false, second, checked);
    if held.Ok? { RecheckAfterReserve(codec, rows, held.value.record, active, op, binding, third); }
  }

  /** A first reserve succeeds if and only if the operation is addressed well, the policy admits the transfer at each of
      the three clock readings, and the hold is stamped on the last reading's day. */
  lemma ReserveAroundAnswers(codec: AP.Codec, inv: PC.Inventory, o: PC.Overlay, buckets: Buckets, active: ActivePolicy,
                             op: Operation, binding: Binding, first: int, second: int, third: int)
    requires PM.Sealed(codec, inv, o, active.registry)
    requires ValidBucket(IdentityOf(op), BucketOf(buckets, IdentityOf(op)))
    requires Find(BucketOf(buckets, IdentityOf(op)), IdOf(op)).None?
    ensures var rows := BucketOf(buckets, IdentityOf(op));
      ReserveAround(codec, buckets, active, op, binding, first, second, third).answer.Ok? <==>
        && CheckPolicy(codec, rows, active, op, binding, first).Ok?
        && Addressed(codec, op) && RowFits(codec, inv, o, op, Usage(rows, Day(second)), second)
        && CheckPolicy(codec, rows, active, op, binding, third).Ok? && Day(BucketStamp(rows, second)) == Day(third)
  {
    var rows, input := BucketOf(buckets, IdentityOf(op)), ReserveInputOf(active, op, second);
    LedgerTakes(codec, inv, o, rows, active, op, second);
    if CheckPolicy(codec, rows, active, op, binding, first).Ok? && ReserveTarget(codec, input).Ok? {
      CheckedDigests(codec, rows, active, op, binding, first);
      var (id, listed) := ReserveTarget(codec, input).value;
      TargetOf(codec, active, op, second);
      LM.ReserveReaches(codec, input);
      LM.HoldIsValid(codec, input, id, BucketStamp(rows, second));
      LM.CheckedAnswers(rows, id, listed, false, second, CheckDay(codec, rows, id, input));
      TakenIsRechecked(codec, rows, active, op, binding, listed, second, third, CheckDay(codec, rows, id, input));
    }
  }
}
