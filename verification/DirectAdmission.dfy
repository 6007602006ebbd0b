/** The direct rail's admission: its own guards around the shared evaluator, and the hold it takes at approval. */
module DirectAdmission {
  import opened Basics
  import AP = AssetPolicy
  import RP = RecipientPins
  import opened UsageRecord
  import opened UsageBucket
  import opened UsageLedger

  /** The exact transfer to admit; its key in the ledger is derived from the operation. */
  datatype Subject = Subject(
    account: string, chain: string, kind: AP.Kind, identifier: Option<string>, family: AP.Family,
    operationId: string, amount: nat, recipient: string)

  /** The owner policy active now, and what preparation froze of it. */
  datatype ActivePolicy = ActivePolicy(registry: AP.Registry, digest: AP.Digest, revision: nat,
                                       accounts: map<AP.Family, string>)
  datatype Binding = Binding(policyDigest: AP.Digest, revision: nat)

  function IdentityOf(s: Subject): Identity { Identity(s.account, s.chain, s.kind, s.identifier) }
  function KeyFor(s: Subject): string { "apn.direct-usage:" + s.operationId }
  function IdOf(s: Subject): ReservationId { ReservationId(IdentityOf(s), KeyFor(s)) }

  /** Loading refuses by its own error; no active policy, or another owner account, is refused here. */
  function Active(loaded: Result<Option<ActivePolicy>>, s: Subject): Result<ActivePolicy> {
    var active :- loaded;
    if active.None? || !(s.family in active.value.accounts && active.value.accounts[s.family] == s.account) then
      Err(AllowlistRefused)
    else Ok(active.value)
  }

  /** `confirm`: the asset is pinned and the prepared revision is still the active one. */
  function Confirm(listed: Subject -> bool, loaded: Result<Option<ActivePolicy>>, s: Subject,
                   binding: Binding): Result<ActivePolicy>
  {
    if !listed(s) then Err(AllowlistRefused)
    else
      var active :- Active(loaded, s);
      if active.digest != binding.policyDigest || active.revision != binding.revision then Err(AllowlistRefused)
      else Ok(active)
  }

  function RequestOf(s: Subject, usage: nat, now: int): AP.Request {
    AP.Request(s.chain, s.kind, s.identifier, AP.Direct, None, s.amount, usage, Day(now), Some(now))
  }

  /** The row the guards look at: by the identifier exactly as the operation spells it. */
  function ExactRow(registry: AP.Registry, s: Subject): Option<AP.Row> {
    var chain := AP.FindChain(registry.body.chains, s.chain);
    if chain.None? then None else AP.FindRow(chain.value.assets, s.kind, s.identifier)
  }

  /** The guards that give a refusal its own reason: the window, the row and rail, both caps. */
  function Guards(registry: AP.Registry, s: Subject, usage: nat, now: int): Result<()> {
    var body, row := registry.body, ExactRow(registry, s);
    if body.expiresAt.Some? && now >= body.expiresAt.value then Err(AllowlistRefused)
    else if body.effectiveAt.Some? && now < body.effectiveAt.value then Err(AllowlistRefused)
    else if row.None? || AP.Direct !in row.value.rails || AP.RowCaps(body.schema, row.value, AP.Direct).None? then
      Err(AllowlistRefused)
    else
      var caps := AP.RowCaps(body.schema, row.value, AP.Direct).value;
      if s.amount > caps.maximum || usage + s.amount > caps.daily then Err(AllowlistRefused) else Ok(())
  }

  /** `evaluate`: the guards, the shared evaluator, and the owner's recipient pins. */
  function GateEvaluate(codec: AP.Codec, registry: AP.Registry, s: Subject, usage: nat, now: int): Result<AP.Admission>
  {
    var _ :- Guards(registry, s, usage, now);
    var admission :- AP.Evaluate(codec, registry, RequestOf(s, usage, now));
    var listed :- RP.RecipientAdmitted(codec, admission, None, s.recipient);
    if listed then Ok(admission) else Err(AllowlistRefused)
  }

  /** `admit`. */
  function Admit(codec: AP.Codec, listed: Subject -> bool, loaded: Result<Option<ActivePolicy>>, rows: Rows, s: Subject,
                 now: int): Result<Binding>
  {
    if !listed(s) then Err(AllowlistRefused)
    else
      var active :- Active(loaded, s);
      var usage :- UsageResult(rows, now);
      var _ :- GateEvaluate(codec, active.registry, s, usage, now);
      Ok(Binding(active.digest, active.revision))
  }

  function ReserveInputOf(active: ActivePolicy, s: Subject, now: int): ReserveInput {
    ReserveInput(s.account, s.chain, s.kind, s.identifier, active.registry, AP.Direct, None, s.amount, KeyFor(s), now,
                 false)
  }

  /** What approval checks before it asks the ledger: a first hold is evaluated against the day, an existing one must
      still be open to use. */
  function CheckApproval(codec: AP.Codec, active: ActivePolicy, rows: Rows, s: Subject, now: int): Result<()> {
    match Find(rows, IdOf(s))
    case Some(existing) => if existing.state == Reserved then Ok(()) else Err(OperationBlocked)
    case None =>
      var usage :- UsageResult(rows, now);
      var _ :- GateEvaluate(codec, active.registry, s, usage, now);
      Ok(())
  }

  datatype Held = Held(identity: Identity, rows: Rows, record: Reservation)

  /** The ledger's part: replay the operation's hold or take a new one; a replayed row must still be reserved. */
  function TakeHold(codec: AP.Codec, active: ActivePolicy, buckets: Buckets, s: Subject, now: int): Result<Held> {
    var (id, initial) :- ReserveTarget(codec, ReserveInputOf(active, s, now));
    var applied :- Reserve(codec, BucketOf(buckets, id.identity), id, initial, ReserveInputOf(active, s, now));
    if applied.record.state != Reserved then Err(OperationBlocked)
    else Ok(Held(id.identity, applied.rows, applied.record))
  }

  /** `reserve`: which bucket it writes, that bucket's rows after it, and the hold. */
  function GateReserve(codec: AP.Codec, listed: Subject -> bool, loaded: Result<Option<ActivePolicy>>, buckets: Buckets,
                       s: Subject, binding: Binding, now: int): Result<Held>
  {
    var active :- Confirm(listed, loaded, s, binding);
    var _ :- CheckApproval(codec, active, BucketOf(buckets, IdentityOf(s)), s, now);
    TakeHold(codec, active, buckets, s, now)
  }
}
