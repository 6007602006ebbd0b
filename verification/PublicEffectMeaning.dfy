/** When each step of the public evidence is taken, in terms of what is on disk, and what it leaves there. */
module PublicEffectMeaning {
  import opened Basics
  import opened PublicEffect
  import opened PublicEffectRuns

  /** The claim on disk binds this operation, which is the one saved, to the custody as it is now. */
  predicate Claimed(s: Store, op: Operation) {
    s.saved == op && s.prepared == Some(Binding(op.id, op.fingerprint, op.payload, s.custody))
  }

  /** A claim is made where there is none, and an existing one is confirmed exactly when it binds. */
  lemma PrepareMeaning(s: Store, op: Operation)
    ensures Prepared(s, op).Ok? <==> Claimed(s, op)
    ensures Claimed(s, op) ==> Some(Prepared(s, op).value) == s.prepared
    ensures Prepare(s, op).Ok? <==> s.prepared.None? || Claimed(s, op)
    ensures Prepare(s, op).Ok? ==>
      Prepare(s, op).value == s.(prepared := Some(Binding(op.id, op.fingerprint, op.payload, s.custody)))
  {
  }

  /** An attempt begins exactly once, on a claim that binds; it writes its public key and nothing else, and carries what
      it was begun on. */
  lemma BeginMeaning(s: Store, op: Operation, key: Key)
    ensures BeginSigning(s, op, key).Ok? <==> Claimed(s, op) && s.signing.None?
    ensures BeginSigning(s, op, key).Ok? ==>
      var (t, attempt) := BeginSigning(s, op, key).value;
      && t == s.(signing := Some(SigningRecord(s.prepared.value, key)))
      && attempt == Attempt(s.prepared.value, op, s.prepared.value, SigningRecord(s.prepared.value, key))
  {
  }

  /** Nothing has happened since the attempt began: the operation is the started one it was begun on, with no
      transaction or submission, claim and attempt are the ones on disk, and neither a signed record nor a fence is
      there. */
  predicate Untouched(s: Store, op: Operation, attempt: Attempt) {
    && op.state == Started && !op.terminal && op.transaction.None? && !op.submitted && !op.providerEffect
    && attempt.operation == op && Claimed(s, op) && s.prepared == Some(attempt.binding) == Some(attempt.prepared)
    && s.signing == Some(attempt.signing) && attempt.signing.binding == attempt.binding
    && s.signed.None? && s.fence.None?
  }

  /** An outcome is recorded exactly over an untouched attempt without one, and changes nothing else. */
  lemma RecordMeaning(s: Store, op: Operation, attempt: Attempt, key: Key)
    ensures RecordNoPrivateEntry(s, op, attempt, key).Ok? <==> Untouched(s, op, attempt) && s.outcome.None?
    ensures RecordNoPrivateEntry(s, op, attempt, key).Ok? ==>
      RecordNoPrivateEntry(s, op, attempt, key).value ==
        s.(outcome := Some(OutcomeRecord(attempt, Signature(key, attempt))))
  {
  }

  /** An outcome is accepted exactly when its attempt is untouched and it is signed with that attempt's key; none at all
      says nothing; everything else blocks. */
  lemma AcceptMeaning(s: Store, op: Operation)
    ensures NoPrivateEntry(s, op) == Ok(true) <==>
      && s.outcome.Some? && Untouched(s, op, s.outcome.value.attempt)
      && s.outcome.value.signature == Signature(s.outcome.value.attempt.signing.publicKey, s.outcome.value.attempt)
    ensures NoPrivateEntry(s, op) == Ok(false) <==> s.outcome.None?
    ensures NoPrivateEntry(s, op).Err? ==> NoPrivateEntry(s, op) == Err(OperationBlocked)
  {
  }

  /** The effect is this operation's own, and the wallet attested exactly these bytes for exactly this claim. */
  predicate Sealed(op: Operation, binding: Binding, effect: Effect, attestation: Attestation) {
    effect.transaction == effect.rawTransaction
    && attestation == Attestation(op.wallet, binding, effect.transaction, effect.rawTransaction)
  }

  /** A signed effect is published exactly when no outcome and no other effect is there and everything binds. */
  lemma PublishMeaning(s: Store, op: Operation, effect: Effect, attestation: Attestation)
    ensures Publish(s, op, effect, attestation).Ok? <==>
      && s.outcome.None? && s.signed.None? && Claimed(s, op) && effect.payload == op.payload
      && Sealed(op, s.prepared.value, effect, attestation)
    ensures Publish(s, op, effect, attestation).Ok? ==>
      Publish(s, op, effect, attestation).value ==
        s.(signed := Some(SignedRecord(s.prepared.value, effect, attestation)))
  {
  }

  /** It is read back exactly when there is no outcome, everything still binds, and the operation has saved no other
      transaction. */
  lemma EffectMeaning(s: Store, op: Operation)
    ensures PublishedEffect(s, op).Ok? <==>
      && s.outcome.None? && Claimed(s, op) && s.signed.Some? && s.signed.value.binding == s.prepared.value
      && Sealed(op, s.prepared.value, s.signed.value.effect, s.signed.value.attestation)
      && (op.transaction.Some? ==> op.transaction.value == s.signed.value.effect.transaction)
    ensures PublishedEffect(s, op).Ok? ==> PublishedEffect(s, op).value == s.signed.value.effect
  {
  }

  /** After a publication the operation goes on: under every later record of it the effect is read back as published if
      and only if that record saved this transaction or none. */
  lemma ReadsBackAsItGoesOn(s: Store, op: Operation, effect: Effect, attestation: Attestation, later: Operation)
    requires Publish(s, op, effect, attestation).Ok?
    requires later.id == op.id && later.fingerprint == op.fingerprint && later.payload == op.payload
      && later.wallet == op.wallet
    ensures var t := Publish(s, op, effect, attestation).value.(saved := later);
      && (PublishedEffect(t, later) == Ok(effect) <==> later.transaction in {None, Some(effect.transaction)})
      && (PublishedEffect(t, later).Err? <==> later.transaction !in {None, Some(effect.transaction)})
  {
    PublishMeaning(s, op, effect, attestation);
    EffectMeaning(Publish(s, op, effect, attestation).value.(saved := later), later);
  }

  /** Bytes are marked as sent exactly once, for the signed operation's own transaction. */
  lemma FenceMeaning(s: Store, op: Operation, effect: Effect)
    ensures Fence(s, op, effect).Ok? <==>
      && op.state == SignedNotSubmitted && op.transaction == Some(effect.transaction)
      && effect.transaction == effect.rawTransaction && s.fence.None?
    ensures Fence(s, op, effect).Ok? ==> Fence(s, op, effect).value == s.(fence := Some(effect))
  {
  }

  // ---------------------------------------------------------------- both ways a begun attempt ends

  lemma RunNext(op: Operation, custody: string, steps: seq<Step>, step: Step)
    ensures Run(op, custody, steps + [step]) == Next(Run(op, custody, steps), step)
  {
    assert (steps + [step])[..|steps|] == steps;
  }

  /** A fresh started operation is claimed and its attempt begun. */
  lemma Begun(op: Operation, custody: string, p: nat, key: Key)
    requires op.state == Started
    ensures var w, claim := Run(op, custody, [PrepareClaim] + [Begin(p, key)]), Bind(op, custody);
      && p in w.processes && w.processes[p].phase == Approving && w.processes[p].key == key && !w.entered
      && Claimed(w.store, op) && w.store.signing == Some(w.processes[p].attempt.signing)
      && w.processes[p].attempt == Attempt(claim, op, claim, SigningRecord(claim, key))
      && w.store.signed.None? && w.store.outcome.None? && w.store.fence.None?
  {
    RunNext(op, custody, [], PrepareClaim);
    assert [] + [PrepareClaim] == [PrepareClaim];
    RunNext(op, custody, [PrepareClaim], Begin(p, key));
  }

  /** Approved, it enters the wallet and publishes what the wallet signed and attested. */
  lemma ApprovalPublishes(op: Operation, custody: string, p: nat, key: Key, effect: Effect, attestation: Attestation)
    requires op.state == Started && effect.payload == op.payload
    requires Sealed(op, Binding(op.id, op.fingerprint, op.payload, custody), effect, attestation)
    requires op.transaction in {None, Some(effect.transaction)}
    ensures var steps := [PrepareClaim] + [Begin(p, key)] + [Enter(p)] + [PublishSigned(p, effect, attestation)];
      PublishedEffect(Run(op, custody, steps).store, op) == Ok(effect)
  {
    var begun := [PrepareClaim] + [Begin(p, key)];
    Begun(op, custody, p, key);
    CustodyStays(op, custody, begun);
    RunNext(op, custody, begun, Enter(p));
    RunNext(op, custody, begun + [Enter(p)], PublishSigned(p, effect, attestation));
    var w := Run(op, custody, begun + [Enter(p)]);
    PublishMeaning(w.store, op, effect, attestation);
    ReadsBackAsItGoesOn(w.store, op, effect, attestation, op);
  }

  /** Refused, it records an outcome that is accepted, if nothing says the operation went on. */
  lemma RefusalRecords(op: Operation, custody: string, p: nat, key: Key)
    requires op.state == Started && !op.terminal && op.transaction.None? && !op.submitted && !op.providerEffect
    ensures Accepted(Run(op, custody, [PrepareClaim] + [Begin(p, key)] + [Refuse(p)]))
  {
    var begun := [PrepareClaim] + [Begin(p, key)];
    Begun(op, custody, p, key);
    CustodyStays(op, custody, begun);
    RunNext(op, custody, begun, Refuse(p));
    RefusalIsAccepted(op, custody, begun, p);
  }

  lemma {:induction false} CustodyStays(op: Operation, custody: string, steps: seq<Step>)
    ensures Run(op, custody, steps).store.custody == custody
    decreases |steps|
  {
    if steps != [] { CustodyStays(op, custody, steps[..|steps| - 1]); }
  }
}
