/** What the policy store's commands accept, refuse and leave, read off the two numbered lists it keeps. */
module DecisionMeaning {
  import opened Basics
  import opened PolicyStore
  import opened PolicyDecisions
  import AP = AssetPolicy
  import PC = PolicyCompiler

  // ---------------------------------------------------------------- what a readable store is

  /** Revision `n` is the record in the n-th place, staged from its overlay and sealed by its own digest. */
  predicate StagedAs(rules: Rules, s: State, n: nat)
    requires 1 <= n <= |s.records|
  {
    var r := s.records[n - 1];
    && r.profile == s.profile && r.revision == n
    && r.digest == RecordDigest(r.profile, n, r.preparedAt, r.overlay, r.registry)
    && rules.valid(r.registry) && r.registry.body.version == r.overlay.version
    && r.registry.body.publishedAt == r.overlay.effectiveAt
    && r.registry.body.effectiveAt == Some(r.overlay.effectiveAt) && r.registry.body.expiresAt == r.overlay.expiresAt
  }

  /** Decision `n` follows the one before it, names a staged revision by its digests, and carries that revision's
      registry exactly when it activates it. */
  predicate DecidedAs(rules: Rules, s: State, n: nat)
    requires 1 <= n <= |s.entries|
  {
    var e := s.entries[n - 1];
    var d := e.decision;
    && e.profile == s.profile && e.sequence == n
    && (if n == 1 then e.previous.None? else e.previous == Some(s.entries[n - 2].digest))
    && e.digest == EntryDigest(e.profile, n, e.previous, d.status, d.revision, d.record, d.policy, d.registry,
                               d.fingerprint, d.decidedAt)
    && 1 <= d.revision <= |s.records|
    && d.record == s.records[d.revision - 1].digest && d.policy == s.records[d.revision - 1].registry.policyDigest
    && d.registry == (if d.status == Active then Some(s.records[d.revision - 1].registry) else None)
  }

  lemma {:induction false} FindIsPlace(records: seq<Record>, revision: nat, first: nat)
    requires forall i :: 0 <= i < |records| ==> records[i].revision == first + i
    ensures FindRecord(records, revision) ==
      if first <= revision < first + |records| then Some(records[revision - first]) else None
    decreases |records|
  {
    if records != [] && records[0].revision != revision { FindIsPlace(records[1..], revision, first + 1); }
  }

  lemma FindStaged(rules: Rules, s: State, revision: nat)
    requires forall n :: 1 <= n <= |s.records| ==> StagedAs(rules, s, n)
    ensures FindRecord(s.records, revision) ==
      if 1 <= revision <= |s.records| then Some(s.records[revision - 1]) else None
  {
    forall i | 0 <= i < |s.records| ensures s.records[i].revision == 1 + i { assert StagedAs(rules, s, i + 1); }
    FindIsPlace(s.records, revision, 1);
  }

  lemma RecordPlaced(rules: Rules, s: State, i: nat)
    requires i < |s.records|
    ensures ValidRecord(rules, s.records[i]) && s.records[i].revision == i + 1 && s.records[i].profile == s.profile
      <==> StagedAs(rules, s, i + 1)
  {
  }

  lemma EntryPlaced(rules: Rules, s: State, i: nat)
    requires i < |s.entries| && forall n :: 1 <= n <= |s.records| ==> StagedAs(rules, s, n)
    ensures SoundEntry(rules, s, i) <==> DecidedAs(rules, s, i + 1)
  {
    FindStaged(rules, s, s.entries[i].decision.revision);
    var d := s.entries[i].decision;
    if 1 <= d.revision <= |s.records| { assert StagedAs(rules, s, d.revision); }
  }

  /** A store reads if and only if its lists are numbered from 1 to at most 99,999,999 and every record and decision is
      as it should be. */
  lemma LoadsMeaning(rules: Rules, s: State)
    ensures Loads(rules, s) <==>
      && |s.records| <= 99_999_999 && |s.entries| <= 99_999_999
      && (forall n :: 1 <= n <= |s.records| ==> StagedAs(rules, s, n))
      && (forall n :: 1 <= n <= |s.entries| ==> DecidedAs(rules, s, n))
  {
    LoadsIsSound(rules, s);
    SoundMeaning(rules, s);
  }

  lemma SoundMeaning(rules: Rules, s: State)
    ensures Sound(rules, s) <==>
      && (forall n :: 1 <= n <= |s.records| ==> StagedAs(rules, s, n))
      && (forall n :: 1 <= n <= |s.entries| ==> DecidedAs(rules, s, n))
  {
    forall i | 0 <= i < |s.records|
      ensures ValidRecord(rules, s.records[i]) && s.records[i].revision == i + 1 && s.records[i].profile == s.profile
        <==> StagedAs(rules, s, i + 1)
    {
      RecordPlaced(rules, s, i);
    }
    if Sound(rules, s) {
      forall n | 1 <= n <= |s.records| ensures StagedAs(rules, s, n) { RecordPlaced(rules, s, n - 1); }
      forall n | 1 <= n <= |s.entries| ensures DecidedAs(rules, s, n) {
        assert SoundEntry(rules, s, n - 1);
        EntryPlaced(rules, s, n - 1);
      }
    }
    if (forall n :: 1 <= n <= |s.records| ==> StagedAs(rules, s, n))
      && forall n :: 1 <= n <= |s.entries| ==> DecidedAs(rules, s, n) {
      forall i | 0 <= i < |s.entries| ensures SoundEntry(rules, s, i) {
        assert DecidedAs(rules, s, i + 1);
        EntryPlaced(rules, s, i);
      }
    }
  }

  // ---------------------------------------------------------------- the policy in effect

  /** The last decision activated this revision. */
  predicate InEffect(s: State, revision: nat) {
    s.entries != [] && s.entries[|s.entries| - 1].decision.status == Active
    && s.entries[|s.entries| - 1].decision.revision == revision
  }

  lemma ActiveMeaning(rules: Rules, s: State, revision: nat)
    requires Sound(rules, s)
    ensures InEffect(s, revision) <==> ActiveRecord(s).Some? && ActiveRecord(s).value.revision == revision
    ensures InEffect(s, revision) ==>
      1 <= revision <= |s.records| && ActiveRecord(s) == Some(s.records[revision - 1])
    ensures ActiveRecord(s).None? <==> s.entries == [] || s.entries[|s.entries| - 1].decision.status == Revoked
  {
    SoundMeaning(rules, s);
    if s.entries != [] {
      assert DecidedAs(rules, s, |s.entries|);
      FindStaged(rules, s, s.entries[|s.entries| - 1].decision.revision);
      var n := s.entries[|s.entries| - 1].decision.revision;
      assert StagedAs(rules, s, n);
    }
  }

  /** The status word says what the last decision did and where the clock stands in the window of the revision in
      effect. */
  lemma StatusMeaning(rules: Rules, s: State, now: int)
    requires Sound(rules, s)
    ensures StatusOf(s, now) == NeverActivated <==> s.entries == []
    ensures StatusOf(s, now) == NoLongerActive <==>
      s.entries != [] && s.entries[|s.entries| - 1].decision.status == Revoked
    ensures forall n: nat :: InEffect(s, n) ==>
      1 <= n <= |s.records| &&
      var overlay := s.records[n - 1].overlay;
      && (StatusOf(s, now) == Expired <==> overlay.expiresAt.Some? && overlay.expiresAt.value <= now)
      && (StatusOf(s, now) == Scheduled <==>
            now < overlay.effectiveAt && (overlay.expiresAt.Some? ==> now < overlay.expiresAt.value))
      && (StatusOf(s, now) == InForce <==>
            overlay.effectiveAt <= now && (overlay.expiresAt.Some? ==> now < overlay.expiresAt.value))
      && ActivePolicyAt(s, now) ==
           (if StatusOf(s, now) == Expired then Err(OperationBlocked) else Ok(Some(s.records[n - 1])))
    ensures (forall n: nat :: !InEffect(s, n)) ==> ActivePolicyAt(s, now) == Ok(None)
  {
    SoundMeaning(rules, s);
    if s.entries != [] && s.entries[|s.entries| - 1].decision.status == Active {
      var n := s.entries[|s.entries| - 1].decision.revision;
      assert InEffect(s, n);
      ActiveMeaning(rules, s, n);
      assert StagedAs(rules, s, n);
    } else {
      ActiveMeaning(rules, s, 0);
    }
  }

  // ---------------------------------------------------------------- the commands

  /** A store that does not read refuses every command as corrupt, except that a list that does not compile is refused
      first. */
  lemma UnreadableRefuses(rules: Rules, s: State)
    requires !Loads(rules, s)
    ensures forall action, revision, now :: Show(rules, s, action, revision, now) == Err(StateCorrupt)
    ensures forall head, d :: Append(rules, s, head, d) == Err(StateCorrupt)
    ensures forall overlay, expected, now ::
      Stage(rules, s, overlay, expected, now) ==
        Err(if rules.compile(overlay).None? then InvalidInput else StateCorrupt)
  {
  }

  /** A screen is shown exactly for a staged revision that is not in effect and not past its end, to activate it, or
      that is in effect, to revoke it. */
  lemma ShowMeaning(rules: Rules, s: State, action: Action, revision: nat, now: int)
    requires Loads(rules, s)
    ensures var r := Show(rules, s, action, revision, now);
      && (r == Err(OperationNotFound) <==> !(1 <= revision <= |s.records|))
      && (r.Ok? <==>
            && 1 <= revision <= |s.records| && (action == Revoke <==> InEffect(s, revision))
            && (action == Activate ==>
                  var expiresAt := s.records[revision - 1].overlay.expiresAt;
                  expiresAt.Some? ==> now < expiresAt.value))
      && (r.Ok? ==> r.value == Screen(s, action, s.records[revision - 1]))
      && (r == Err(OperationBlocked) <==>
            && 1 <= revision <= |s.records| && action == Activate && !InEffect(s, revision)
            && s.records[revision - 1].overlay.expiresAt.Some?
            && s.records[revision - 1].overlay.expiresAt.value <= now)
  {
    RevisionFacts(rules, s, revision);
  }

  lemma RevisionFacts(rules: Rules, s: State, revision: nat)
    requires Loads(rules, s)
    ensures FindRecord(s.records, revision) ==
      if 1 <= revision <= |s.records| then Some(s.records[revision - 1]) else None
    ensures InEffect(s, revision) <==> ActiveRecord(s).Some? && ActiveRecord(s).value.revision == revision
    ensures 1 <= revision <= |s.records| ==>
      s.records[revision - 1].registry.body.expiresAt == s.records[revision - 1].overlay.expiresAt
  {
    LoadsMeaning(rules, s);
    LoadsIsSound(rules, s);
    FindStaged(rules, s, revision);
    ActiveMeaning(rules, s, revision);
    if 1 <= revision <= |s.records| { assert StagedAs(rules, s, revision); }
  }

  /** A revision is staged exactly when its list compiles to a registry of its own, the caller names the latest
      revision, no family changes its account, and the version is new; it is appended under the next number. */
  lemma StageMeaning(rules: Rules, s: State, overlay: PC.Overlay, expected: Option<nat>, now: int)
    requires Loads(rules, s)
    ensures var r, registry := Stage(rules, s, overlay, expected, now), rules.compile(overlay);
      && (r.Ok? <==>
            && registry.Some? && Belongs(rules, overlay, registry.value)
            && expected == (if s.records == [] then None else Some(|s.records|))
            && (forall i, f :: 0 <= i < |s.records| && f in overlay.accounts && f in s.records[i].overlay.accounts ==>
                  s.records[i].overlay.accounts[f] == overlay.accounts[f])
            && (forall i :: 0 <= i < |s.records| ==> s.records[i].overlay.version != overlay.version))
      && (r.Ok? ==>
            var n := |s.records| + 1;
            r.value == s.(records := s.records + [Record(s.profile, n, now, overlay, registry.value,
                                                         RecordDigest(s.profile, n, now, overlay, registry.value))]))
  {
    LoadsMeaning(rules, s);
    if s.records != [] { assert StagedAs(rules, s, |s.records|); }
  }

  /** The decision names a staged revision by its digests, and carries its registry exactly to activate it. */
  predicate Names(s: State, d: Decision) {
    && 1 <= d.revision <= |s.records| && d.record == s.records[d.revision - 1].digest
    && d.policy == s.records[d.revision - 1].registry.policyDigest
    && d.registry == (if d.status == Active then Some(s.records[d.revision - 1].registry) else None)
  }

  lemma NamesMeaning(rules: Rules, s: State, d: Decision, previous: Option<EntryDigest>)
    requires forall n :: 1 <= n <= |s.records| ==> StagedAs(rules, s, n)
    requires previous.None? <==> s.entries == []
    ensures MatchesRecord(s.records, d) && ValidEntry(rules, Sealed(s.profile, |s.entries| + 1, previous, d))
      <==> Names(s, d)
  {
    FindStaged(rules, s, d.revision);
    if 1 <= d.revision <= |s.records| { assert StagedAs(rules, s, d.revision); }
  }

  /** A decision is appended exactly on the head the caller names, when it names a staged revision. */
  lemma AppendMeaning(rules: Rules, s: State, head: Option<EntryDigest>, d: Decision)
    requires Loads(rules, s)
    ensures var r, n := Append(rules, s, head, d), |s.entries|;
      && (r.Ok? <==> head == (if n == 0 then None else Some(s.entries[n - 1].digest)) && Names(s, d))
      && (r.Ok? ==>
            && r.value.profile == s.profile && r.value.records == s.records
            && |r.value.entries| == n + 1 && s.entries <= r.value.entries && r.value.entries[n].decision == d)
  {
    LoadsMeaning(rules, s);
    NamesMeaning(rules, s, d, HeadDigest(s));
  }

  /** What was shown is still staged as it was. */
  lemma ShownStays(rules: Rules, s: State, screen: Screen)
    requires Kept(rules, s) && ScreenKept(rules, s, screen)
    ensures FindRecord(s.records, screen.record.revision) == Some(screen.record)
    ensures 1 <= screen.record.revision <= |s.records| && s.records[screen.record.revision - 1] == screen.record
  {
    SoundMeaning(rules, s);
    SoundMeaning(rules, screen.shown);
    FindStaged(rules, screen.shown, screen.record.revision);
    FindStaged(rules, s, screen.record.revision);
    assert StagedAs(rules, s, screen.record.revision);
  }

  lemma HeadIsShown(rules: Rules, s: State, screen: Screen)
    requires Kept(rules, s) && ScreenKept(rules, s, screen)
    ensures HeadDigest(s) == HeadDigest(screen.shown) <==> s.entries == screen.shown.entries
  {
    if HeadDigest(s) == HeadDigest(screen.shown) {
      DigestPinsChain(rules, s, screen.shown, |s.entries|, |screen.shown.entries|);
      assert s.entries[..|s.entries|] == s.entries;
    }
  }

  /** An approved screen of any earlier read is recorded if and only if the store still reads and no decision was made
      since; it is then the last decision, naming what was shown. */
  lemma ApproveMeaning(rules: Rules, s: State, screen: Screen, decidedAt: int)
    requires Kept(rules, s) && ScreenKept(rules, s, screen)
    ensures var r, n := Approve(rules, s, screen, decidedAt), |s.entries|;
      && (r.Ok? <==> |s.records| <= 99_999_999 && n <= 99_999_999 && s.entries == screen.shown.entries)
      && (r.Ok? ==>
            && r.value.records == s.records && |r.value.entries| == n + 1 && s.entries <= r.value.entries
            && var d := r.value.entries[n].decision;
               && d.status == (if screen.action == Activate then Active else Revoked)
               && d.revision == screen.record.revision && d.decidedAt == decidedAt)
  {
    LoadsIsSound(rules, s);
    HeadIsShown(rules, s, screen);
    ShownIsNamed(rules, s, screen, decidedAt);
    if Loads(rules, s) { AppendMeaning(rules, s, HeadDigest(screen.shown), DecisionOf(screen, decidedAt)); }
  }

  lemma ShownIsNamed(rules: Rules, s: State, screen: Screen, decidedAt: int)
    requires Kept(rules, s) && ScreenKept(rules, s, screen)
    ensures Names(s, DecisionOf(screen, decidedAt))
  {
    ShownStays(rules, s, screen);
  }

  /** An approved activation puts its revision in effect; an approved revocation leaves none. */
  lemma DecisionTakesEffect(rules: Rules, s: State, screen: Screen, decidedAt: int)
    requires Kept(rules, s) && ScreenKept(rules, s, screen) && Approve(rules, s, screen, decidedAt).Ok?
    ensures var t := Approve(rules, s, screen, decidedAt).value;
      ActiveRecord(t) == if screen.action == Activate then Some(screen.record) else None
  {
    ApproveMeaning(rules, s, screen, decidedAt);
    ShownStays(rules, s, screen);
  }
}
