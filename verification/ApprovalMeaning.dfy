/** When the direct rail admits and approves a transfer, in the owner's words. */
module ApprovalMeaning {
  import opened Basics
  import AP = AssetPolicy
  import RP = RecipientPins
  import PC = PolicyCompiler
  import PM = PolicyMeaning
  import opened UsageRecord
  import opened UsageBucket
  import opened UsageLedger
  import opened DirectAdmission
  import opened DirectAdmissionProofs

  /** The asset is pinned, and a policy is active whose account of the family is the operation's. */
  predicate Owned(listed: Subject -> bool, loaded: Result<Option<ActivePolicy>>, s: Subject) {
    && listed(s) && loaded.Ok? && loaded.value.Some?
    && s.family in loaded.value.value.accounts && loaded.value.value.accounts[s.family] == s.account
  }

  /** And it is the very policy that preparation froze. */
  predicate Confirmed(listed: Subject -> bool, loaded: Result<Option<ActivePolicy>>, s: Subject, binding: Binding) {
    Owned(listed, loaded, s)
    && loaded.value.value.digest == binding.policyDigest && loaded.value.value.revision == binding.revision
  }

  lemma ConfirmMeaning(listed: Subject -> bool, loaded: Result<Option<ActivePolicy>>, s: Subject, binding: Binding)
    ensures Confirm(listed, loaded, s, binding).Ok? <==> Confirmed(listed, loaded, s, binding)
    ensures Confirmed(listed, loaded, s, binding) ==> Confirm(listed, loaded, s, binding) == Ok(loaded.value.value)
    ensures Confirm(listed, loaded, s, binding).Err? ==>
      Confirm(listed, loaded, s, binding) ==
        (if listed(s) && loaded.Err? then Err(loaded.error) else Err(AllowlistRefused))
  {
  }

  /** An owner row names this asset, spelled as the operation spells it, on the direct rail; it fits the amount beside
      the day's usage and lists the recipient. */
  ghost predicate RowAllows(codec: AP.Codec, inv: PC.Inventory, a: PC.OwnerRow, s: Subject, usage: nat, now: int) {
    && PM.Names(codec, inv, a, RequestOf(s, usage, now)) && PM.Fits(a, RequestOf(s, usage, now))
    && inv.resolve(a).value.identifier == s.identifier
    && (a.recipients.Some? ==>
          codec.recipient(s.recipient).Some? && codec.recipient(s.recipient).value.address in a.recipients.value)
  }

  ghost predicate OwnerAllowsIt(codec: AP.Codec, inv: PC.Inventory, o: PC.Overlay, s: Subject, usage: nat, now: int) {
    PM.InForce(o, RequestOf(s, usage, now)) && exists a :: a in o.rows && RowAllows(codec, inv, a, s, usage, now)
  }

  lemma NamedRowDecides(codec: AP.Codec, inv: PC.Inventory, o: PC.Overlay, registry: AP.Registry, s: Subject,
                        usage: nat, now: int, a: PC.OwnerRow)
    requires PM.Sealed(codec, inv, o, registry) && PM.InForce(o, RequestOf(s, usage, now)) && a in o.rows
    requires PM.Names(codec, inv, a, RequestOf(s, usage, now))
    ensures var e := AP.Evaluate(codec, registry, RequestOf(s, usage, now));
      e.Ok? && e.value.row.identifier == s.identifier
        && RP.RecipientAdmitted(codec, e.value, None, s.recipient) == Ok(true)
      <==> RowAllows(codec, inv, a, s, usage, now)
  {
    var q := RequestOf(s, usage, now);
    PM.MemberFacts(codec, inv, o, a);
    PM.NamedVerdict(codec, inv, o, registry, q, a);
    if AP.Evaluate(codec, registry, q).Ok? { PM.RecipientMeaning(codec, inv, o, registry, q, a, s.recipient); }
  }

  /** The gate admits a transfer if and only if the policy is in force and an owner row allows it. */
  lemma GateMeaning(codec: AP.Codec, inv: PC.Inventory, o: PC.Overlay, registry: AP.Registry, s: Subject, usage: nat,
                    now: int)
    requires PM.Sealed(codec, inv, o, registry)
    ensures GateEvaluate(codec, registry, s, usage, now).Ok? <==> OwnerAllowsIt(codec, inv, o, s, usage, now)
  {
    var q := RequestOf(s, usage, now);
    GuardsAddNoRule(codec, registry, s, usage, now);
    if AP.Evaluate(codec, registry, q).Ok? {
      var a := PM.AdmittedIsNamed(codec, inv, o, registry, q);
      NamedRowDecides(codec, inv, o, registry, s, usage, now, a);
    }
    if OwnerAllowsIt(codec, inv, o, s, usage, now) {
      var a :| a in o.rows && RowAllows(codec, inv, a, s, usage, now);
      NamedRowDecides(codec, inv, o, registry, s, usage, now, a);
    }
  }

  /** Preparation admits a transfer if and only if it is the active policy's own and an owner row allows it beside
      everything charged today; it freezes that policy. */
  lemma AdmitMeaning(codec: AP.Codec, inv: PC.Inventory, o: PC.Overlay, listed: Subject -> bool,
                     loaded: Result<Option<ActivePolicy>>, rows: Rows, s: Subject, now: int)
    requires loaded.Ok? && loaded.value.Some? ==> PM.Sealed(codec, inv, o, loaded.value.value.registry)
    ensures var r := Admit(codec, listed, loaded, rows, s, now);
      && (r.Ok? <==>
            && Owned(listed, loaded, s) && Usage(rows, Day(now)) <= MAX_UINT256
            && OwnerAllowsIt(codec, inv, o, s, Usage(rows, Day(now)), now))
      && (r.Ok? ==> r.value == Binding(loaded.value.value.digest, loaded.value.value.revision))
  {
    AdmitSteps(codec, listed, loaded, rows, s, now);
    if Owned(listed, loaded, s) {
      GateMeaning(codec, inv, o, loaded.value.value.registry, s, Usage(rows, Day(now)), now);
    }
  }

  lemma AdmitSteps(codec: AP.Codec, listed: Subject -> bool, loaded: Result<Option<ActivePolicy>>, rows: Rows,
                   s: Subject, now: int)
    ensures var r := Admit(codec, listed, loaded, rows, s, now);
      && (r.Ok? <==>
            && Owned(listed, loaded, s) && Usage(rows, Day(now)) <= MAX_UINT256
            && GateEvaluate(codec, loaded.value.value.registry, s, Usage(rows, Day(now)), now).Ok?)
      && (r.Ok? ==> r.value == Binding(loaded.value.value.digest, loaded.value.value.revision))
  {
  }

  /** The account is one of the network's, and the operation's identity makes a well-formed key. */
  predicate Addressed(codec: AP.Codec, s: Subject) { codec.account(s.chain, s.account) && Keyed(s.operationId) }

  predicate Keyed(operationId: string) {
    |operationId| <= 239 && forall i :: 0 <= i < |operationId| ==> '!' <= operationId[i] <= '~'
  }

  lemma KeyIsAddressed(s: Subject)
    ensures IsIdempotencyKey(KeyFor(s)) <==> Keyed(s.operationId)
  {
    var prefix, key := "apn.direct-usage:", KeyFor(s);
    assert |prefix| == 17;
    forall i | 0 <= i < |s.operationId| ensures key[17 + i] == s.operationId[i] { }
  }

  lemma TakenIsAddressed(codec: AP.Codec, active: ActivePolicy, buckets: Buckets, s: Subject, now: int)
    requires TakeHold(codec, active, buckets, s, now).Ok?
    ensures Addressed(codec, s)
  {
    KeyIsAddressed(s);
    TargetOf(codec, active, s, now);
  }

  lemma GateTakes(codec: AP.Codec, active: ActivePolicy, buckets: Buckets, s: Subject, now: int)
    requires var rows := BucketOf(buckets, IdentityOf(s));
      && Find(rows, IdOf(s)).None? && CheckApproval(codec, active, rows, s, now).Ok?
    requires Addressed(codec, s)
    ensures TakeHold(codec, active, buckets, s, now).Ok?
  {
    var rows := BucketOf(buckets, IdentityOf(s));
    var usage := Usage(rows, Day(now));
    FreshIsEvaluated(codec, active, rows, s, now);
    OwnNamespace(s);
    KeyIsAddressed(s);
    GateFacts(codec, active.registry, s, usage, now);
    HoldSeals(codec, active.registry, RequestOf(s, usage, now), IdOf(s), BucketStamp(rows, now));
    FirstHoldTaken(codec, active, rows, s, usage, now);
  }

  /** A first approval is held if and only if it is confirmed, well addressed, and an owner row still allows the
      transfer beside everything charged today. */
  lemma FirstApprovalMeaning(codec: AP.Codec, inv: PC.Inventory, o: PC.Overlay, listed: Subject -> bool,
                             loaded: Result<Option<ActivePolicy>>, buckets: Buckets, s: Subject, binding: Binding,
                             now: int)
    requires loaded.Ok? && loaded.value.Some? ==> PM.Sealed(codec, inv, o, loaded.value.value.registry)
    requires Find(BucketOf(buckets, IdentityOf(s)), IdOf(s)).None?
    ensures var usage := Usage(BucketOf(buckets, IdentityOf(s)), Day(now));
      GateReserve(codec, listed, loaded, buckets, s, binding, now).Ok? <==>
        && Confirmed(listed, loaded, s, binding) && Addressed(codec, s) && usage <= MAX_UINT256
        && OwnerAllowsIt(codec, inv, o, s, usage, now)
  {
    var rows := BucketOf(buckets, IdentityOf(s));
    ConfirmMeaning(listed, loaded, s, binding);
    if Confirmed(listed, loaded, s, binding) {
      var active := loaded.value.value;
      GateMeaning(codec, inv, o, active.registry, s, Usage(rows, Day(now)), now);
      CheckMeaning(codec, active, rows, s, now);
      if TakeHold(codec, active, buckets, s, now).Ok? { TakenIsAddressed(codec, active, buckets, s, now); }
      if CheckApproval(codec, active, rows, s, now).Ok? && Addressed(codec, s) {
        GateTakes(codec, active, buckets, s, now);
      }
    }
  }

  lemma CheckMeaning(codec: AP.Codec, active: ActivePolicy, rows: Rows, s: Subject, now: int)
    ensures CheckApproval(codec, active, rows, s, now).Ok? <==>
      if Find(rows, IdOf(s)).Some? then Find(rows, IdOf(s)).value.state == Reserved
      else Usage(rows, Day(now)) <= MAX_UINT256
           && GateEvaluate(codec, active.registry, s, Usage(rows, Day(now)), now).Ok?
  {
  }

  /** A hold that is no longer reserved is never approved again. */
  lemma UsedHoldIsRefused(codec: AP.Codec, listed: Subject -> bool, loaded: Result<Option<ActivePolicy>>,
                          buckets: Buckets, s: Subject, binding: Binding, now: int)
    requires Find(BucketOf(buckets, IdentityOf(s)), IdOf(s)).Some?
    requires Find(BucketOf(buckets, IdentityOf(s)), IdOf(s)).value.state != Reserved
    ensures GateReserve(codec, listed, loaded, buckets, s, binding, now).Err?
  {
    ConfirmMeaning(listed, loaded, s, binding);
  }

  /** What is held is held under the operation's own key, in its account's bucket of the asset as the policy spells
      it. */
  lemma HeldUnderItsKey(codec: AP.Codec, listed: Subject -> bool, active: ActivePolicy, buckets: Buckets, s: Subject,
                        binding: Binding, now: int)
    requires GateReserve(codec, listed, Ok(Some(active)), buckets, s, binding, now).Ok?
    ensures var held := GateReserve(codec, listed, Ok(Some(active)), buckets, s, binding, now).value;
      var identity := held.record.id.identity;
      && held.identity == identity && held.record.id.key == "apn.direct-usage:" + s.operationId
      && identity.account == s.account && identity.chain == s.chain && identity.kind == s.kind
      && held.record.amount == s.amount && held.record.rail == AP.Direct && held.record.state == Reserved
      && held.record.policyDigest == active.registry.policyDigest
      && Find(held.rows, held.record.id) == Some(held.record)
  {
    HeldParts(codec, listed, active, buckets, s, binding, now);
    TargetOf(codec, active, s, now);
  }
}
