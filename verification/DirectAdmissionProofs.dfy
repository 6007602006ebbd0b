/** The direct rail end to end: its guards add no rule of their own, what it holds the owner wrote, and it holds
    once. */
module DirectAdmissionProofs {
  import opened Basics
  import AP = AssetPolicy
  import RP = RecipientPins
  import PC = PolicyCompiler
  import PM = PolicyMeaning
  import opened UsageRecord
  import opened UsageBucket
  import opened UsageBucketProofs
  import opened UsageLedger
  import opened DirectAdmission

  /** In a valid registry a row found by an exact identifier is the one the evaluator finds. */
  lemma ExactIsCanonical(codec: AP.Codec, registry: AP.Registry, s: Subject)
    requires AP.ValidRegistry(codec, registry) && ExactRow(registry, s).Some?
    ensures s.kind.Native? <==> s.identifier.None?
    ensures AP.CanonicalIdentifier(codec, AP.FindChain(registry.body.chains, s.chain).value.family, s.kind,
                                   s.identifier) == Ok(s.identifier)
  {
    var chain := AP.FindChain(registry.body.chains, s.chain).value;
    var i :| 0 <= i < |registry.body.chains| && registry.body.chains[i] == chain;
    assert AP.ValidChain(codec, registry.body.schema, registry.body.chains[i]);
    var j :| 0 <= j < |chain.assets| && chain.assets[j] == ExactRow(registry, s).value;
    assert AP.ValidRow(codec, chain.family, registry.body.schema, chain.assets[j]);
  }

  /** The evaluator's answer on the direct rail, given the row. */
  lemma DirectRowFits(registry: AP.Registry, chain: AP.Chain, row: AP.Row, q: AP.Request)
    requires q.rail == AP.Direct && AP.EvaluateRow(registry, chain, row, q).Ok?
    ensures var caps := AP.RowCaps(registry.body.schema, row, AP.Direct);
      caps.Some? && q.amount <= caps.value.maximum && q.dailyUsage + q.amount <= caps.value.daily
    ensures AP.EvaluateRow(registry, chain, row, q).value.row == row
      && AP.EvaluateRow(registry, chain, row, q).value.rail == AP.Direct
  {
  }

  /** The guards only name reasons: wherever the operation spells its asset as the policy does, the gate admits exactly
      what the shared evaluator and the recipient pins admit. */
  lemma GuardsAddNoRule(codec: AP.Codec, registry: AP.Registry, s: Subject, usage: nat, now: int)
    requires AP.ValidRegistry(codec, registry)
    ensures var e := AP.Evaluate(codec, registry, RequestOf(s, usage, now));
      GateEvaluate(codec, registry, s, usage, now).Ok? <==>
        e.Ok? && e.value.row.identifier == s.identifier
          && RP.RecipientAdmitted(codec, e.value, None, s.recipient) == Ok(true)
  {
    var q := RequestOf(s, usage, now);
    if AP.Evaluate(codec, registry, q).Ok? {
      var ch, identifier, row := PM.EvaluateReached(codec, registry, q);
      PM.EvaluateReaches(codec, registry, q, ch, identifier, row);
      DirectRowFits(registry, ch, row, q);
      if ExactRow(registry, s).Some? { ExactIsCanonical(codec, registry, s); }
    }
  }

  // ---------------------------------------------------------------- one row, one key

  /** Which row a request reaches depends on the asset it names, not on amounts, usage or the clock. */
  lemma SameRow(codec: AP.Codec, registry: AP.Registry, q: AP.Request, p: AP.Request)
    requires AP.Evaluate(codec, registry, q).Ok? && AP.Evaluate(codec, registry, p).Ok?
    requires q.chain == p.chain && q.kind == p.kind && q.identifier == p.identifier && q.rail == p.rail == AP.Direct
    ensures AP.Evaluate(codec, registry, q).value.row == AP.Evaluate(codec, registry, p).value.row
  {
    var ch, identifier, row := PM.EvaluateReached(codec, registry, q);
    var ch', identifier', row' := PM.EvaluateReached(codec, registry, p);
    PM.EvaluateReaches(codec, registry, q, ch, identifier, row);
    PM.EvaluateReaches(codec, registry, p, ch', identifier', row');
    DirectRowFits(registry, ch, row, q);
    DirectRowFits(registry, ch', row', p);
  }

  lemma TargetOf(codec: AP.Codec, active: ActivePolicy, s: Subject, now: int)
    requires ReserveTarget(codec, ReserveInputOf(active, s, now)).Ok?
    ensures var (id, initial) := ReserveTarget(codec, ReserveInputOf(active, s, now)).value;
      var e := AP.Evaluate(codec, active.registry, RequestOf(s, 0, now));
      && e == Ok(initial) && id.key == KeyFor(s) && id.identity.identifier == initial.row.identifier
      && id.identity.account == s.account && id.identity.chain == s.chain && id.identity.kind == s.kind
      && initial.amount == s.amount && initial.rail == AP.Direct
      && initial.policyDigest == active.registry.policyDigest && initial.registryVersion == active.registry.body.version
  {
    AP.EvaluateBounds(codec, active.registry, RequestOf(s, 0, now));
  }

  /** However often and whenever it is asked, one operation addresses one bucket and one key. */
  lemma SameTarget(codec: AP.Codec, active: ActivePolicy, s: Subject, now: int, later: int)
    requires ReserveTarget(codec, ReserveInputOf(active, s, now)).Ok?
      && ReserveTarget(codec, ReserveInputOf(active, s, later)).Ok?
    ensures ReserveTarget(codec, ReserveInputOf(active, s, now)).value.0 ==
      ReserveTarget(codec, ReserveInputOf(active, s, later)).value.0
  {
    TargetOf(codec, active, s, now);
    TargetOf(codec, active, s, later);
    SameRow(codec, active.registry, RequestOf(s, 0, now), RequestOf(s, 0, later));
  }

  // ---------------------------------------------------------------- held once

  lemma HeldParts(codec: AP.Codec, listed: Subject -> bool, active: ActivePolicy, buckets: Buckets, s: Subject,
                  binding: Binding, now: int)
    requires GateReserve(codec, listed, Ok(Some(active)), buckets, s, binding, now).Ok?
    ensures var held := GateReserve(codec, listed, Ok(Some(active)), buckets, s, binding, now).value;
      && CheckApproval(codec, active, BucketOf(buckets, IdentityOf(s)), s, now).Ok?
      && ReserveTarget(codec, ReserveInputOf(active, s, now)).Ok?
      && var id := ReserveTarget(codec, ReserveInputOf(active, s, now)).value.0;
         held.identity == id.identity && held.record.state == Reserved && held.record.amount == s.amount
         && IsReplay(held.record, active.registry.policyDigest, active.registry.body.version, AP.Direct, s.amount)
         && Find(held.rows, id) == Some(held.record)
         && (Find(BucketOf(buckets, id.identity), id).None? ==>
              held.rows == BucketOf(buckets, id.identity) + [held.record])
         && (Find(BucketOf(buckets, id.identity), id).Some? ==>
               held.rows == BucketOf(buckets, id.identity)
                 && Find(BucketOf(buckets, id.identity), id) == Some(held.record))
  {
    var input := ReserveInputOf(active, s, now);
    TargetOf(codec, active, s, now);
    var (id, initial) := ReserveTarget(codec, input).value;
    var rows := BucketOf(buckets, id.identity);
    ReserveAnswers(rows, id, initial, now, CheckDay(codec, rows, id, input));
    if Find(rows, id).Some? { ReplayWritesNothing(codec, rows, id, initial, input); }
  }

  /** The rows of a hold make a sound bucket. */
  lemma HeldKeepsBucket(codec: AP.Codec, listed: Subject -> bool, active: ActivePolicy, buckets: Buckets, s: Subject,
                        binding: Binding, now: int)
    requires ValidBuckets(buckets) && GateReserve(codec, listed, Ok(Some(active)), buckets, s, binding, now).Ok?
    ensures var held := GateReserve(codec, listed, Ok(Some(active)), buckets, s, binding, now).value;
      ValidBucket(held.identity, held.rows)
  {
    var c := ReserveCommand(ReserveInputOf(active, s, now));
    var id := ReserveTarget(codec, c.reserve).value.0;
    var rows := BucketOf(buckets, id.identity);
    ApplyShape(codec, id.identity, rows, c);
    ShapeKeepsBucket(id.identity, rows, Apply(codec, id.identity, rows, c).value, c);
  }

  /** After `held`, other commands ran on its bucket, none of them under the operation's key; other buckets changed
      freely. */
  ghost predicate LaterLedger(codec: AP.Codec, held: Held, after: Buckets, cs: seq<Command>, key: string) {
    Spares(cs, key)
      && BucketOf(after, held.identity) == Run(codec, held.identity, BucketState(held.rows, 0, 0), cs).rows
  }

  lemma HoldIsStillThere(codec: AP.Codec, listed: Subject -> bool, active: ActivePolicy, buckets: Buckets,
                         after: Buckets, s: Subject, binding: Binding, now: int, cs: seq<Command>)
    requires ValidBuckets(buckets) && GateReserve(codec, listed, Ok(Some(active)), buckets, s, binding, now).Ok?
    requires LaterLedger(codec, GateReserve(codec, listed, Ok(Some(active)), buckets, s, binding, now).value, after, cs,
                         KeyFor(s))
    ensures var held := GateReserve(codec, listed, Ok(Some(active)), buckets, s, binding, now).value;
      && Find(BucketOf(after, held.identity), ReservationId(held.identity, KeyFor(s))) == Some(held.record)
      && held.record.state == Reserved
  {
    var held := GateReserve(codec, listed, Ok(Some(active)), buckets, s, binding, now).value;
    HeldParts(codec, listed, active, buckets, s, binding, now);
    TargetOf(codec, active, s, now);
    HeldKeepsBucket(codec, listed, active, buckets, s, binding, now);
    OtherKeysKeepRow(codec, held.identity, BucketState(held.rows, 0, 0), cs, KeyFor(s));
  }

  /** An approval repeated at any clock reading, after any run of other commands, charges nothing again: if it answers,
      it answers with the same hold and leaves its bucket as it finds it. */
  lemma ApprovalIsReplayed(codec: AP.Codec, listed: Subject -> bool, active: ActivePolicy, buckets: Buckets,
                           after: Buckets, s: Subject, binding: Binding, now: int, later: int, cs: seq<Command>)
    requires ValidBuckets(buckets) && GateReserve(codec, listed, Ok(Some(active)), buckets, s, binding, now).Ok?
    requires LaterLedger(codec, GateReserve(codec, listed, Ok(Some(active)), buckets, s, binding, now).value, after, cs,
                         KeyFor(s))
    ensures var held := GateReserve(codec, listed, Ok(Some(active)), buckets, s, binding, now).value;
      var again := GateReserve(codec, listed, Ok(Some(active)), after, s, binding, later);
      again.Ok? ==> again.value == Held(held.identity, BucketOf(after, held.identity), held.record)
  {
    HoldIsStillThere(codec, listed, active, buckets, after, s, binding, now, cs);
    TargetOf(codec, active, s, now);
    if GateReserve(codec, listed, Ok(Some(active)), after, s, binding, later).Ok? {
      HeldParts(codec, listed, active, after, s, binding, later);
      SameTarget(codec, active, s, now, later);
    }
  }

  /** Where the ledger is asked for an operation depends on the clock only through the policy's answer on an unused
      day. */
  lemma TargetAnswers(codec: AP.Codec, active: ActivePolicy, s: Subject, now: int, later: int)
    requires ReserveTarget(codec, ReserveInputOf(active, s, now)).Ok?
    requires AP.Evaluate(codec, active.registry, RequestOf(s, 0, later)).Ok?
    ensures ReserveTarget(codec, ReserveInputOf(active, s, later)).Ok?
  {
    var initial := AP.Evaluate(codec, active.registry, RequestOf(s, 0, later)).value;
    assert PolicyRequest(ReserveInputOf(active, s, later), 0) == RequestOf(s, 0, later);
    AP.EvaluateBounds(codec, active.registry, RequestOf(s, 0, later));
    TargetOf(codec, active, s, now);
  }

  /** A stored open hold on the same terms is replayed. */
  lemma StoredIsReplayed(codec: AP.Codec, active: ActivePolicy, after: Buckets, s: Subject, later: int,
                         record: Reservation)
    requires ReserveTarget(codec, ReserveInputOf(active, s, later)).Ok? && record.state == Reserved
    requires IsReplay(record, active.registry.policyDigest, active.registry.body.version, AP.Direct, s.amount)
    requires var id := ReserveTarget(codec, ReserveInputOf(active, s, later)).value.0;
      Find(BucketOf(after, id.identity), id) == Some(record)
    ensures TakeHold(codec, active, after, s, later).Ok?
  {
    TargetOf(codec, active, s, later);
    var (id, initial) := ReserveTarget(codec, ReserveInputOf(active, s, later)).value;
    var rows := BucketOf(after, id.identity);
    var checked := CheckDay(codec, rows, id, ReserveInputOf(active, s, later));
    assert ReserveChecked(rows, id, initial, false, later, checked) == Ok(Unchanged(rows, record));
  }

  /** And it answers if and only if the policy would still admit the amount on an unused day: the day's usage, which by
      then contains the operation's own hold and everyone else's, is not asked again. */
  lemma ReplayAnswersIff(codec: AP.Codec, listed: Subject -> bool, active: ActivePolicy, buckets: Buckets,
                         after: Buckets, s: Subject, binding: Binding, now: int, later: int, cs: seq<Command>)
    requires ValidBuckets(buckets) && GateReserve(codec, listed, Ok(Some(active)), buckets, s, binding, now).Ok?
    requires LaterLedger(codec, GateReserve(codec, listed, Ok(Some(active)), buckets, s, binding, now).value, after, cs,
                         KeyFor(s))
    requires GateReserve(codec, listed, Ok(Some(active)), buckets, s, binding, now).value.identity == IdentityOf(s)
    ensures GateReserve(codec, listed, Ok(Some(active)), after, s, binding, later).Ok?
      <==> AP.Evaluate(codec, active.registry, RequestOf(s, 0, later)).Ok?
  {
    var held := GateReserve(codec, listed, Ok(Some(active)), buckets, s, binding, now).value;
    HoldIsStillThere(codec, listed, active, buckets, after, s, binding, now, cs);
    HeldParts(codec, listed, active, buckets, s, binding, now);
    TargetOf(codec, active, s, now);
    if AP.Evaluate(codec, active.registry, RequestOf(s, 0, later)).Ok? {
      TargetAnswers(codec, active, s, now, later);
      SameTarget(codec, active, s, now, later);
      StoredIsReplayed(codec, active, after, s, later, held.record);
    } else {
      EvaluateFirst(codec, active, s, later);
    }
  }

  lemma EvaluateFirst(codec: AP.Codec, active: ActivePolicy, s: Subject, now: int)
    ensures ReserveTarget(codec, ReserveInputOf(active, s, now)).Ok? ==>
      AP.Evaluate(codec, active.registry, RequestOf(s, 0, now)).Ok?
  {
    assert PolicyRequest(ReserveInputOf(active, s, now), 0) == RequestOf(s, 0, now);
  }

  // ---------------------------------------------------------------- admitted, then approved

  lemma OwnNamespace(s: Subject)
    ensures !HasPrefix(KeyFor(s), METAMASK_NAMESPACE) && !HasPrefix(KeyFor(s), CLEANUP_NAMESPACE)
  {
    assert KeyFor(s)[4] == 'd' && METAMASK_NAMESPACE[4] == 'm' && CLEANUP_NAMESPACE[4] == 'c';
  }

  /** The hold of an admitted amount passes the record's own integrity check. */
  lemma HoldSeals(codec: AP.Codec, registry: AP.Registry, q: AP.Request, id: ReservationId, at: int)
    requires AP.Evaluate(codec, registry, q).Ok? && IsIdempotencyKey(id.key)
    ensures Seal(NewHold(id, registry.policyDigest, registry.body.version, AP.Direct, q.amount, at)).Ok?
  {
    AP.EvaluateBounds(codec, registry, q);
  }

  lemma GateFacts(codec: AP.Codec, registry: AP.Registry, s: Subject, usage: nat, now: int)
    requires GateEvaluate(codec, registry, s, usage, now).Ok?
    ensures var e, first :=
      AP.Evaluate(codec, registry, RequestOf(s, usage, now)), AP.Evaluate(codec, registry, RequestOf(s, 0, now));
      && e.Ok? && first.Ok? && first.value.row.identifier == s.identifier && first.value.row.kind == s.kind
      && first.value.chain == s.chain
      && first.value.amount == s.amount && first.value.rail == AP.Direct
      && first.value.policyDigest == registry.policyDigest && first.value.registryVersion == registry.body.version
  {
    GuardsAddNoRule(codec, registry, s, usage, now);
    AP.EvaluateAntitoneInUsage(codec, registry, RequestOf(s, usage, now), 0);
    assert RequestOf(s, usage, now).(dailyUsage := 0) == RequestOf(s, 0, now);
    SameRow(codec, registry, RequestOf(s, usage, now), RequestOf(s, 0, now));
    AP.EvaluateBounds(codec, registry, RequestOf(s, 0, now));
  }

  /** What preparation admits, an approval at the same instant on the same ledger holds. */
  lemma AdmittedIsApproved(codec: AP.Codec, listed: Subject -> bool, active: ActivePolicy, buckets: Buckets, s: Subject,
                           now: int)
    requires Admit(codec, listed, Ok(Some(active)), BucketOf(buckets, IdentityOf(s)), s, now).Ok?
    requires Find(BucketOf(buckets, IdentityOf(s)), IdOf(s)).None?
    requires IsIdempotencyKey(KeyFor(s)) && codec.account(s.chain, s.account)
    ensures var binding := Admit(codec, listed, Ok(Some(active)), BucketOf(buckets, IdentityOf(s)), s, now).value;
      GateReserve(codec, listed, Ok(Some(active)), buckets, s, binding, now).Ok?
  {
    var rows := BucketOf(buckets, IdentityOf(s));
    var usage := UsageResult(rows, now).value;
    OwnNamespace(s);
    GateFacts(codec, active.registry, s, usage, now);
    HoldSeals(codec, active.registry, RequestOf(s, usage, now), IdOf(s), BucketStamp(rows, now));
    FirstHoldTaken(codec, active, rows, s, usage, now);
  }

  lemma FirstHoldTaken(codec: AP.Codec, active: ActivePolicy, rows: Rows, s: Subject, usage: nat, now: int)
    requires Find(rows, IdOf(s)).None? && UsageResult(rows, now) == Ok(usage)
    requires AP.Evaluate(codec, active.registry, RequestOf(s, usage, now)).Ok?
    requires var first := AP.Evaluate(codec, active.registry, RequestOf(s, 0, now));
      && first.Ok? && first.value.row.identifier == s.identifier && first.value.row.kind == s.kind
      && first.value.chain == s.chain
      && first.value.amount == s.amount && first.value.rail == AP.Direct
      && first.value.policyDigest == active.registry.policyDigest
      && first.value.registryVersion == active.registry.body.version
    requires IsIdempotencyKey(KeyFor(s)) && codec.account(s.chain, s.account)
    requires !HasPrefix(KeyFor(s), METAMASK_NAMESPACE) && !HasPrefix(KeyFor(s), CLEANUP_NAMESPACE)
    requires Seal(NewHold(IdOf(s), active.registry.policyDigest, active.registry.body.version, AP.Direct, s.amount,
                          BucketStamp(rows, now))).Ok?
    ensures var input := ReserveInputOf(active, s, now);
      var initial := AP.Evaluate(codec, active.registry, RequestOf(s, 0, now)).value;
      && ReserveTarget(codec, input) == Ok((IdOf(s), initial))
      && Reserve(codec, rows, IdOf(s), initial, input).Ok?
      && Reserve(codec, rows, IdOf(s), initial, input).value.record.state == Reserved
  {
    var input := ReserveInputOf(active, s, now);
    assert PolicyRequest(input, 0) == RequestOf(s, 0, now);
    assert PolicyRequest(input, usage).(chain := IdOf(s).identity.chain, identifier := IdOf(s).identity.identifier) ==
      RequestOf(s, usage, now);
  }

  // ---------------------------------------------------------------- the owner's word, end to end

  lemma FreshIsEvaluated(codec: AP.Codec, active: ActivePolicy, rows: Rows, s: Subject, now: int)
    requires Find(rows, IdOf(s)).None? && CheckApproval(codec, active, rows, s, now).Ok?
    ensures UsageResult(rows, now) == Ok(Usage(rows, Day(now)))
      && GateEvaluate(codec, active.registry, s, Usage(rows, Day(now)), now).Ok?
  {
  }

  /** The whole path: what a first approval holds under a compiled policy is an amount that one of the owner's own rows
      admits for this asset on the direct rail today, to a recipient that row lists; and exactly that amount is held. */
  lemma FirstHoldIsTheOwnersWord(codec: AP.Codec, inv: PC.Inventory, o: PC.Overlay, listed: Subject -> bool,
                                 active: ActivePolicy, buckets: Buckets, s: Subject, binding: Binding, now: int)
    requires PM.Sealed(codec, inv, o, active.registry) && Find(BucketOf(buckets, IdentityOf(s)), IdOf(s)).None?
    requires GateReserve(codec, listed, Ok(Some(active)), buckets, s, binding, now).Ok?
    ensures var held := GateReserve(codec, listed, Ok(Some(active)), buckets, s, binding, now).value;
      var rows := BucketOf(buckets, IdentityOf(s));
      && held.identity == IdentityOf(s) && held.rows == rows + [held.record] && held.record.state == Reserved
      && held.record.amount == s.amount
      && OwnerAllows(codec, inv, o, s, Usage(rows, Day(now)), now)
  {
    var rows := BucketOf(buckets, IdentityOf(s));
    var q := RequestOf(s, Usage(rows, Day(now)), now);
    HeldParts(codec, listed, active, buckets, s, binding, now);
    FreshIsEvaluated(codec, active, rows, s, now);
    GuardsAddNoRule(codec, active.registry, s, Usage(rows, Day(now)), now);
    TargetOf(codec, active, s, now);
    SameRow(codec, active.registry, q, RequestOf(s, 0, now));
    AdmittedIsAllowed(codec, inv, o, active.registry, s, Usage(rows, Day(now)), now);
  }

  /** Some owner row names this asset on the direct rail, fits the amount and the day's usage, and lists the
      recipient. */
  ghost predicate OwnerAllows(codec: AP.Codec, inv: PC.Inventory, o: PC.Overlay, s: Subject, usage: nat, now: int) {
    PM.InForce(o, RequestOf(s, usage, now)) &&
    exists a :: a in o.rows && PM.Names(codec, inv, a, RequestOf(s, usage, now)) && PM.Fits(a, RequestOf(s, usage, now))
      && RP.Lists(codec, PM.OwnerPins(a, None), s.recipient)
  }

  lemma AdmittedIsAllowed(codec: AP.Codec, inv: PC.Inventory, o: PC.Overlay, registry: AP.Registry, s: Subject,
                          usage: nat, now: int)
    requires PM.Sealed(codec, inv, o, registry) && AP.Evaluate(codec, registry, RequestOf(s, usage, now)).Ok?
    requires RP.RecipientAdmitted(codec, AP.Evaluate(codec, registry, RequestOf(s, usage, now)).value, None,
                                  s.recipient) == Ok(true)
    ensures OwnerAllows(codec, inv, o, s, usage, now)
  {
    var q := RequestOf(s, usage, now);
    var a := PM.AdmittedIsNamed(codec, inv, o, registry, q);
    PM.NamedVerdict(codec, inv, o, registry, q, a);
    PM.RecipientMeaning(codec, inv, o, registry, q, a, s.recipient);
  }
}
