/** The public evidence of one direct transfer: its prepared claim, its signing attempt, and then either a published
    signed effect or the proof that approval ended before the private wallet was entered. */
module PublicEffect {
  import opened Basics

  datatype OperationState =
    | AwaitingApproval | Started | SignedNotSubmitted | SubmittedPending | UnknownFinality
    | Completed | FailedBeforeEffect | FailedConfirmedRevert

  /** The saved operation record; its integrity hash is injective, so the record stands for it. */
  datatype Operation = Operation(
    id: string, fingerprint: string, payload: string, wallet: string, state: OperationState, terminal: bool,
    transaction: Option<string>, submitted: bool, providerEffect: bool)

  datatype Binding = Binding(id: string, fingerprint: string, payload: string, custody: string)

  /** An ephemeral key pair; the private half stays in the process that made it. */
  type Key = nat

  datatype SigningRecord = SigningRecord(binding: Binding, publicKey: Key)
  datatype Attempt = Attempt(binding: Binding, operation: Operation, prepared: Binding, signing: SigningRecord)
  datatype Signature = Signature(key: Key, body: Attempt)
  datatype OutcomeRecord = OutcomeRecord(attempt: Attempt, signature: Signature)
  datatype Attestation = Attestation(signer: string, binding: Binding, transaction: string, rawTransaction: string)
  datatype Effect = Effect(payload: string, transaction: string, rawTransaction: string)
  datatype SignedRecord = SignedRecord(binding: Binding, effect: Effect, attestation: Attestation)

  /** The durable state of one operation. Every evidence file is create-only. */
  datatype Store = Store(
    saved: Operation, custody: string, prepared: Option<Binding>, signing: Option<SigningRecord>,
    signed: Option<SignedRecord>, outcome: Option<OutcomeRecord>, fence: Option<Effect>)

  function Bind(op: Operation, custody: string): Binding { Binding(op.id, op.fingerprint, op.payload, custody) }

  /** `prepared`: the claim exists and still binds the saved operation and the current custody. */
  function Prepared(s: Store, op: Operation): Result<Binding> {
    if s.saved != op then Err(StateCorrupt)
    else if s.prepared.None? then Err(OperationBlocked)
    else if s.prepared.value != Bind(op, s.prepared.value.custody) || s.prepared.value.custody != s.custody then
      Err(StateCorrupt)
    else Ok(s.prepared.value)
  }

  /** `prepare`. */
  function Prepare(s: Store, op: Operation): Result<Store> {
    if s.prepared.Some? then
      var _ :- Prepared(s, op);
      Ok(s)
    else Ok(s.(prepared := Some(Bind(op, s.custody))))
  }

  /** `beginSigning`: the attempt record is create-only, so an operation has one attempt. */
  function BeginSigning(s: Store, op: Operation, key: Key): Result<(Store, Attempt)> {
    var binding :- Prepared(s, op);
    if s.signing.Some? then Err(StateCorrupt)
    else
      var record := SigningRecord(binding, key);
      Ok((s.(signing := Some(record)), Attempt(binding, op, binding, record)))
  }

  /** `checkNoPrivateContext`: this unchanged started operation, this attempt, and no conflicting evidence. */
  function CheckContext(s: Store, op: Operation, attempt: Attempt): Result<Key> {
    if op.state != Started || op.terminal || op.transaction.Some? || op.submitted || op.providerEffect
      || attempt.operation != op then Err(OperationBlocked)
    else
      var binding :- Prepared(s, op);
      if binding != attempt.binding || Some(attempt.prepared) != s.prepared || s.signing.None?
         || s.signing.value.binding != binding || attempt.signing != s.signing.value then Err(OperationBlocked)
      else if s.signed.Some? || s.fence.Some? then Err(OperationBlocked)
      else Ok(s.signing.value.publicKey)
  }

  function OutcomeOf(attempt: Attempt, key: Key): OutcomeRecord { OutcomeRecord(attempt, Signature(key, attempt)) }

  /** `recordNoPrivateEntry` with the attempt's own private key. */
  function RecordNoPrivateEntry(s: Store, op: Operation, attempt: Attempt, key: Key): Result<Store> {
    var _ :- CheckContext(s, op, attempt);
    if s.outcome.Some? then Err(StateCorrupt) else Ok(s.(outcome := Some(OutcomeOf(attempt, key))))
  }

  /** `noPrivateEntry`: absence says nothing; any flaw in a present outcome blocks. */
  function NoPrivateEntry(s: Store, op: Operation): Result<bool> {
    if s.outcome.None? then Ok(false)
    else
      var key := CheckContext(s, op, s.outcome.value.attempt);
      if key.Err? || s.outcome.value.signature != Signature(key.value, s.outcome.value.attempt) then
        Err(OperationBlocked) else Ok(true)
  }

  predicate Attested(op: Operation, effect: Effect, binding: Binding, attestation: Attestation) {
    attestation == Attestation(op.wallet, binding, effect.transaction, effect.rawTransaction)
  }

  /** `publish`. */
  function Publish(s: Store, op: Operation, effect: Effect, attestation: Attestation): Result<Store> {
    if s.outcome.Some? then Err(OperationBlocked)
    else
      var binding :- Prepared(s, op);
      if effect.payload != binding.payload || effect.transaction != effect.rawTransaction
        || !Attested(op, effect, binding, attestation) then Err(StateCorrupt)
      else if s.signed.Some? then Err(StateCorrupt)
      else Ok(s.(signed := Some(SignedRecord(binding, effect, attestation))))
  }

  /** `effect`. */
  function PublishedEffect(s: Store, op: Operation): Result<Effect> {
    if s.outcome.Some? then Err(OperationBlocked)
    else
      var binding :- Prepared(s, op);
      if s.signed.None? then Err(OperationBlocked)
      else
        var r := s.signed.value;
        if r.binding != binding || r.effect.transaction != r.effect.rawTransaction
           || (op.transaction.Some? && op.transaction.value != r.effect.transaction)
           || !Attested(op, r.effect, binding, r.attestation) then Err(StateCorrupt)
        else Ok(r.effect)
  }

  /** `fence`: a permanent mark that these exact bytes may have been sent. */
  function Fence(s: Store, op: Operation, effect: Effect): Result<Store> {
    if op.state != SignedNotSubmitted || op.transaction != Some(effect.transaction)
      || effect.transaction != effect.rawTransaction then Err(StateCorrupt)
    else if s.fence.Some? then Err(StateCorrupt)
    else Ok(s.(fence := Some(effect)))
  }

  /** What was published is what is read back, and from then on no outcome is accepted. */
  lemma PublishedReadsBack(s: Store, op: Operation, effect: Effect, attestation: Attestation)
    requires Publish(s, op, effect, attestation).Ok?
    ensures var t := Publish(s, op, effect, attestation).value;
      && (op.transaction.None? ==> PublishedEffect(t, op) == Ok(effect))
      && forall any :: NoPrivateEntry(t.(outcome := any), op) != Ok(true)
  {
  }

  // ---------------------------------------------------------------- the journal

  /** The files on disk. */
  class Disk {
    var store: Store

    constructor (store: Store)
      ensures this.store == store
    {
      this.store := store;
    }
  }

  /** One process's journal: the disk, and the private keys of attempts it began and has not used. */
  class DirectPublicEffectJournal {
    const disk: Disk
    var freshAttempts: map<Attempt, Key>

    /** Each attempt kept here has its own private key. */
    ghost predicate Valid()
      reads this
    {
      forall attempt | attempt in freshAttempts :: freshAttempts[attempt] == attempt.signing.publicKey
    }

    constructor (disk: Disk)
      ensures Valid() && this.disk == disk && freshAttempts == map[]
    {
      this.disk := disk;
      freshAttempts := map[];
    }

    /** Begin the operation's one attempt; only this journal keeps its private key. */
    method BeginAttempt(op: Operation, freshKey: Key) returns (r: Result<Attempt>)
      requires Valid()
      modifies this`freshAttempts, disk
      ensures Valid()
      ensures match BeginSigning(old(disk.store), op, freshKey)
              case Ok(begun) =>
                disk.store == begun.0 && r == Ok(begun.1) && freshAttempts == old(freshAttempts)[begun.1 := freshKey]
              case Err(e) => disk.store == old(disk.store) && r == Err(e) && freshAttempts == old(freshAttempts)
    {
      var binding :- Prepared(disk.store, op);
      if disk.store.signing.Some? { return Err(StateCorrupt); }
      var record := SigningRecord(binding, freshKey);
      disk.store := disk.store.(signing := Some(record));
      var attempt := Attempt(binding, op, binding, record);
      freshAttempts := freshAttempts[attempt := freshKey];
      return Ok(attempt);
    }

    /** Only the journal that began the attempt can record its outcome, and only once: the key is dropped first. */
    method RecordOutcome(op: Operation, attempt: Attempt) returns (r: Result<()>)
      requires Valid()
      modifies this`freshAttempts, disk
      ensures freshAttempts == old(freshAttempts) - {attempt}
      ensures disk.store ==
        if attempt !in old(freshAttempts) then old(disk.store)
        else
          var recorded := RecordNoPrivateEntry(old(disk.store), op, attempt, old(freshAttempts)[attempt]);
          if recorded.Ok? then recorded.value else old(disk.store)
      ensures Valid() && (r.Ok? ==> attempt in old(freshAttempts) && NoPrivateEntry(disk.store, op) == Ok(true))
    {
      var known := attempt in freshAttempts;
      ghost var keys := freshAttempts;
      var key := if known then freshAttempts[attempt] else 0;
      freshAttempts := freshAttempts - {attempt};
      if !known { return Err(OperationBlocked); }
      var _ :- CheckContext(disk.store, op, attempt);
      if disk.store.outcome.Some? { return Err(StateCorrupt); }
      disk.store := disk.store.(outcome := Some(OutcomeOf(attempt, key)));
      var _ :- CheckContext(disk.store, op, attempt);
      return Ok(());
    }

    /** Publish the signed effect, unless an outcome says there is none. */
    method PublishEffect(op: Operation, effect: Effect, attestation: Attestation) returns (r: Result<()>)
      modifies disk
      ensures match Publish(old(disk.store), op, effect, attestation)
              case Ok(s) => disk.store == s && r.Ok?
              case Err(e) => disk.store == old(disk.store) && r == Err(e)
    {
      if disk.store.outcome.Some? { return Err(OperationBlocked); }
      var binding :- Prepared(disk.store, op);
      if effect.payload != binding.payload || effect.transaction != effect.rawTransaction { return Err(StateCorrupt); }
      if !Attested(op, effect, binding, attestation) { return Err(StateCorrupt); }
      if disk.store.outcome.Some? { return Err(OperationBlocked); }
      if disk.store.signed.Some? { return Err(StateCorrupt); }
      disk.store := disk.store.(signed := Some(SignedRecord(binding, effect, attestation)));
      return Ok(());
    }
  }
}

/** Every run of native processes, lifecycle writers and readers over one operation's evidence, with any process killed
    at any step. */
module PublicEffectRuns {
  import opened Basics
  import opened PublicEffect

  /** A native signing process: waiting for the human, inside the private wallet, or done. A killed process takes no
      further step. */
  datatype Phase = Approving | Entered | Done

  datatype Process = Process(attempt: Attempt, key: Key, phase: Phase)

  /** `entered`: some process has opened the private wallet for this operation; `keys`: every private key ever made. */
  datatype World = World(store: Store, processes: map<nat, Process>, keys: set<Key>, entered: bool)

  datatype Step =
    | PrepareClaim
    | Begin(p: nat, key: Key)
    | Refuse(p: nat)
    | Enter(p: nat)
    | PublishSigned(p: nat, effect: Effect, attestation: Attestation)
    | SendFence(effect: Effect)
    | SaveOperation(op: Operation)
    | ForeignOutcome(record: OutcomeRecord)

  /** A new key pair is nobody's, and no older signature verifies under it. */
  predicate NewKey(w: World, key: Key) {
    key !in w.keys && !(w.store.outcome.Some? && w.store.outcome.value.signature.key == key)
  }

  /** The saved operation is what every caller passes. A foreign outcome file is one whose writer has no attempt's
      private key. */
  function Next(w: World, step: Step): World {
    var s := w.store;
    match step
    case PrepareClaim =>
      var r := Prepare(s, s.saved);
      if r.Ok? then w.(store := r.value) else w
    case Begin(p, key) =>
      var r := BeginSigning(s, s.saved, key);
      if p in w.processes || !NewKey(w, key) || s.signed.Some? || s.saved.state != Started || r.Err? then w
      else w.(store := r.value.0, processes := w.processes[p := Process(r.value.1, key, Approving)],
              keys := w.keys + {key})
    case Refuse(p) =>
      if !(p in w.processes && w.processes[p].phase == Approving) then w
      else
        var x := w.processes[p];
        var r := RecordNoPrivateEntry(s, x.attempt.operation, x.attempt, x.key);
        w.(store := if r.Ok? then r.value else s, processes := w.processes[p := x.(phase := Done)])
    case Enter(p) =>
      if !(p in w.processes && w.processes[p].phase == Approving) then w
      else w.(processes := w.processes[p := w.processes[p].(phase := Entered)], entered := true)
    case PublishSigned(p, effect, attestation) =>
      if !(p in w.processes && w.processes[p].phase == Entered) then w
      else
        var r := Publish(s, s.saved, effect, attestation);
        if r.Ok? then w.(store := r.value) else w
    case SendFence(effect) =>
      var r := Fence(s, s.saved, effect);
      if r.Ok? then w.(store := r.value) else w
    case SaveOperation(op) => w.(store := s.(saved := op))
    case ForeignOutcome(record) =>
      if s.outcome.Some? || record.signature.key in w.keys then w else w.(store := s.(outcome := Some(record)))
  }

  function Start(op: Operation, custody: string): World {
    World(Store(op, custody, None, None, None, None, None), map[], {}, false)
  }

  function Run(op: Operation, custody: string, steps: seq<Step>): World {
    if steps == [] then Start(op, custody) else Next(Run(op, custody, steps[..|steps| - 1]), steps[|steps| - 1])
  }

  // ---------------------------------------------------------------- what every step keeps

  /** At most one process, the one whose attempt record is on disk, with its key. */
  ghost predicate Inv(w: World) {
    && (forall p | p in w.processes ::
         w.store.signing == Some(w.processes[p].attempt.signing)
         && w.processes[p].key == w.processes[p].attempt.signing.publicKey
         && w.processes[p].key in w.keys)
    && (forall p, q :: p in w.processes && q in w.processes ==> p == q)
    && (w.store.signing.None? ==> w.processes == map[])
    && (w.store.signing.Some? ==> w.store.signing.value.publicKey in w.keys)
    && (w.entered <==> exists p :: p in w.processes && w.processes[p].phase == Entered)
    && (Proven(w) ==> exists p :: p in w.processes && w.processes[p].phase == Done)
    && (w.store.signed.Some? ==> w.entered)
  }

  /** The outcome on disk is signed with the key of the attempt on disk. */
  ghost predicate Proven(w: World) {
    && w.store.outcome.Some? && w.store.signing.Some?
    && w.store.outcome.value.signature.key == w.store.signing.value.publicKey
  }

  lemma StepKeeps(w: World, step: Step)
    requires Inv(w)
    ensures Inv(Next(w, step))
  {
    var t := Next(w, step);
    match step
    case PrepareClaim =>
    case Begin(p, key) =>
      if t != w { assert p in t.processes && t.processes.Keys == {p}; }
    case Refuse(p) =>
      if t != w { assert p in t.processes && t.processes[p].phase == Done; }
    case Enter(p) =>
      if t != w { assert p in t.processes && t.processes[p].phase == Entered; }
    case _ =>
  }

  lemma {:induction false} RunKeeps(op: Operation, custody: string, steps: seq<Step>)
    ensures Inv(Run(op, custody, steps))
    decreases |steps|
  {
    if steps != [] {
      RunKeeps(op, custody, steps[..|steps| - 1]);
      StepKeeps(Run(op, custody, steps[..|steps| - 1]), steps[|steps| - 1]);
    }
  }

  /** Evidence files are create-only. */
  ghost predicate Grew(s: Store, t: Store) {
    && (s.signing.Some? ==> t.signing == s.signing) && (s.signed.Some? ==> t.signed == s.signed)
    && (s.outcome.Some? ==> t.outcome == s.outcome) && (s.fence.Some? ==> t.fence == s.fence)
    && (s.prepared.Some? ==> t.prepared == s.prepared)
  }

  lemma {:induction false} FilesStay(op: Operation, custody: string, steps: seq<Step>, n: nat)
    requires n <= |steps|
    ensures Grew(Run(op, custody, steps[..n]).store, Run(op, custody, steps).store)
    decreases |steps|
  {
    if n == |steps| {
      assert steps[..n] == steps;
    } else {
      var before := steps[..|steps| - 1];
      assert before[..n] == steps[..n];
      FilesStay(op, custody, before, n);
      StepGrows(Run(op, custody, before), steps[|steps| - 1]);
    }
  }

  lemma StepGrows(w: World, step: Step)
    ensures Grew(w.store, Next(w, step).store)
  {
  }

  // ---------------------------------------------------------------- the theorems

  predicate Accepted(w: World) { NoPrivateEntry(w.store, w.store.saved) == Ok(true) }

  lemma SignedState(w: World)
    requires Inv(w) && w.store.signed.Some?
    ensures !Accepted(w) && w.entered
  {
  }

  /** An accepted outcome was recorded by the one process that began the attempt, and the private wallet was never
      entered. */
  lemma AcceptedMeansNeverEntered(op: Operation, custody: string, steps: seq<Step>)
    requires Accepted(Run(op, custody, steps))
    ensures !Run(op, custody, steps).entered
    ensures exists p :: p in Run(op, custody, steps).processes && Run(op, custody, steps).processes[p].phase == Done
  {
    RunKeeps(op, custody, steps);
    var w := Run(op, custody, steps);
    assert Proven(w);
    var p :| p in w.processes && w.processes[p].phase == Done;
  }

  /** Once a prefix of a run accepted the outcome, every later state has no published effect and never entered the
      wallet, and publish and effect refuse. */
  lemma AcceptedIsForever(op: Operation, custody: string, steps: seq<Step>, n: nat, any: Operation, effect: Effect,
                          attestation: Attestation)
    requires n <= |steps| && Accepted(Run(op, custody, steps[..n]))
    ensures var w := Run(op, custody, steps);
      && w.store.signed.None? && !w.entered
      && Publish(w.store, any, effect, attestation) == Err(OperationBlocked)
      && PublishedEffect(w.store, any) == Err(OperationBlocked)
  {
    FilesStay(op, custody, steps, n);
    RunKeeps(op, custody, steps);
    var w := Run(op, custody, steps);
    assert Proven(w);
    var p :| p in w.processes && w.processes[p].phase == Done;
  }

  /** Once an effect is published, no later state accepts a no-private-entry outcome, whatever is recorded. */
  lemma PublishedIsForever(op: Operation, custody: string, steps: seq<Step>, n: nat)
    requires n <= |steps| && Run(op, custody, steps[..n]).store.signed.Some?
    ensures !Accepted(Run(op, custody, steps)) && Run(op, custody, steps).entered
  {
    FilesStay(op, custody, steps, n);
    RunKeeps(op, custody, steps);
    SignedState(Run(op, custody, steps));
  }

  /** A refused approval is provable: if nothing changed since the attempt began, its process's record is accepted. */
  lemma RefusalIsAccepted(op: Operation, custody: string, steps: seq<Step>, p: nat)
    requires var w := Run(op, custody, steps);
      && p in w.processes && w.processes[p].phase == Approving && w.store.outcome.None? && w.store.fence.None?
      && w.processes[p].attempt.operation == w.store.saved
      && CheckContext(w.store, w.store.saved, w.processes[p].attempt).Ok?
    ensures Accepted(Next(Run(op, custody, steps), Refuse(p)))
  {
    RunKeeps(op, custody, steps);
  }
}
