/** The owner's policy store: staged revisions and a hash-chained list of activation decisions, both create-only
    files. */
module PolicyStore {
  import opened Basics
  import opened NumberedFiles
  import AP = AssetPolicy
  import PC = PolicyCompiler

  /** Eight digits name a file. */
  const MAX_NUMBER := 99_999_999

  datatype Action = Activate | Revoke
  datatype Status = Active | Revoked

  // Digests are injective, so each is the tuple of what it hashes.
  datatype RecordDigest = RecordDigest(profile: string, revision: nat, preparedAt: int, overlay: PC.Overlay,
                                       registry: AP.Registry)

  datatype Fingerprint = Fingerprint(action: Action, profile: string, revision: nat, record: RecordDigest,
                                     policy: AP.Digest, head: Option<EntryDigest>)

  datatype EntryDigest = EntryDigest(
    profile: string, sequence: nat, previous: Option<EntryDigest>, status: Status, revision: nat, record: RecordDigest,
    policy: AP.Digest, registry: Option<AP.Registry>, fingerprint: Fingerprint, decidedAt: int)

  datatype Record = Record(profile: string, revision: nat, preparedAt: int, overlay: PC.Overlay, registry: AP.Registry,
                           digest: RecordDigest)

  datatype Decision = Decision(
    status: Status, revision: nat, record: RecordDigest, policy: AP.Digest, registry: Option<AP.Registry>,
    fingerprint: Fingerprint, decidedAt: int)

  datatype Entry = Entry(profile: string, sequence: nat, previous: Option<EntryDigest>, decision: Decision,
                         digest: EntryDigest)

  /** One integrity-checked read of a profile. */
  datatype State = State(profile: string, records: seq<Record>, entries: seq<Entry>)

  /** The overlay compiler, and the validator of sealed registries. */
  datatype Rules = Rules(compile: PC.Overlay -> Option<AP.Registry>, valid: AP.Registry -> bool)

  function Sealed(profile: string, sequence: nat, previous: Option<EntryDigest>, d: Decision): Entry {
    Entry(profile, sequence, previous, d,
          EntryDigest(profile, sequence, previous, d.status, d.revision, d.record, d.policy, d.registry, d.fingerprint,
                      d.decidedAt))
  }

  // ---------------------------------------------------------------- what a read accepts

  /** A stored registry carries its overlay's version and window. */
  predicate Belongs(rules: Rules, overlay: PC.Overlay, registry: AP.Registry) {
    && rules.valid(registry)
    && registry.body.version == overlay.version && registry.body.publishedAt == overlay.effectiveAt
    && registry.body.effectiveAt == Some(overlay.effectiveAt) && registry.body.expiresAt == overlay.expiresAt
  }

  /** `validateStagedAllowlistPolicyRecord`. */
  predicate ValidRecord(rules: Rules, r: Record) {
    && 1 <= r.revision && r.digest == RecordDigest(r.profile, r.revision, r.preparedAt, r.overlay, r.registry)
    && Belongs(rules, r.overlay, r.registry)
  }

  /** A valid record of this profile under its own file name. */
  predicate RecordFile(rules: Rules, profile: string, n: nat, r: Record) {
    n <= MAX_NUMBER && ValidRecord(rules, r) && r.profile == profile && r.revision == n
  }

  /** `validateActivationEntry`. */
  predicate ValidEntry(rules: Rules, e: Entry) {
    && 1 <= e.sequence && 1 <= e.decision.revision && (e.sequence == 1 <==> e.previous.None?)
    && (match e.decision.status
        case Active =>
          e.decision.registry.Some? && rules.valid(e.decision.registry.value)
            && e.decision.registry.value.policyDigest == e.decision.policy
        case Revoked => e.decision.registry.None?)
    && e == Sealed(e.profile, e.sequence, e.previous, e.decision)
  }

  /** A valid entry of this profile under its own file name. */
  predicate EntryFile(rules: Rules, profile: string, n: nat, e: Entry) {
    n <= MAX_NUMBER && ValidEntry(rules, e) && e.profile == profile && e.sequence == n
  }

  function FindRecord(records: seq<Record>, revision: nat): (r: Option<Record>)
    ensures r.Some? ==> r.value in records && r.value.revision == revision
    ensures r.None? ==> forall x :: x in records ==> x.revision != revision
  {
    if records == [] then None else if records[0].revision == revision then Some(records[0])
    else FindRecord(records[1..], revision)
  }

  /** The decision's digests and registry are those of the staged revision it names. */
  predicate MatchesRecord(records: seq<Record>, d: Decision) {
    var r := FindRecord(records, d.revision);
    && r.Some? && r.value.digest == d.record && r.value.registry.policyDigest == d.policy
    && (d.registry.Some? ==> d.registry.value == r.value.registry)
  }

  function DigestBefore(entries: seq<Entry>, i: nat): Option<EntryDigest>
    requires i <= |entries|
  {
    if i == 0 then None else Some(entries[i - 1].digest)
  }

  predicate Linked(s: State, i: nat)
    requires i < |s.entries|
  {
    s.entries[i].previous == DigestBefore(s.entries, i) && MatchesRecord(s.records, s.entries[i].decision)
  }

  predicate Loads(rules: Rules, s: State) {
    && (forall i :: 0 <= i < |s.records| ==> RecordFile(rules, s.profile, i + 1, s.records[i]))
    && (forall i :: 0 <= i < |s.entries| ==> EntryFile(rules, s.profile, i + 1, s.entries[i]) && Linked(s, i))
  }

  // ---------------------------------------------------------------- the locked sections

  function HeadDigest(s: State): Option<EntryDigest> { DigestBefore(s.entries, |s.entries|) }

  /** No earlier revision binds one of these families to another account. */
  predicate SameAccounts(records: seq<Record>, accounts: map<AP.Family, string>) {
    forall i, f | 0 <= i < |records| && f in accounts && f in records[i].overlay.accounts ::
      records[i].overlay.accounts[f] == accounts[f]
  }

  predicate NewVersion(records: seq<Record>, version: string) {
    forall i :: 0 <= i < |records| ==> records[i].overlay.version != version
  }

  function NextRecord(s: State, overlay: PC.Overlay, registry: AP.Registry, now: int): Record {
    var revision := |s.records| + 1;
    Record(s.profile, revision, now, overlay, registry, RecordDigest(s.profile, revision, now, overlay, registry))
  }

  /** What a writer refuses in the state it read: another latest revision, a changed account, or a version used
      before. */
  function StageRefusal(s: State, overlay: PC.Overlay, expected: Option<nat>): Option<ErrorCode> {
    if expected != (if s.records == [] then None else Some(s.records[|s.records| - 1].revision)) then
      Some(RevisionConflict)
    else if !SameAccounts(s.records, overlay.accounts) then Some(ProfileDrift)
    else if !NewVersion(s.records, overlay.version) then Some(InvalidInput)
    else None
  }

  /** `stage` and `writeRevision`: compile, then append the next revision if the caller's expectation still holds. */
  function Stage(rules: Rules, s: State, overlay: PC.Overlay, expected: Option<nat>, now: int): Result<State> {
    var registry := rules.compile(overlay);
    if registry.None? then Err(InvalidInput)
    else if !Loads(rules, s) then Err(StateCorrupt)
    else if StageRefusal(s, overlay, expected).Some? then Err(StageRefusal(s, overlay, expected).value)
    else
      var record := NextRecord(s, overlay, registry.value, now);
      if ValidRecord(rules, record) then Ok(s.(records := s.records + [record])) else Err(StateCorrupt)
  }

  /** `appendDecision`: append only if the head is still the one the human approved against. */
  function Append(rules: Rules, s: State, expectedHead: Option<EntryDigest>, d: Decision): Result<State> {
    if !Loads(rules, s) then Err(StateCorrupt)
    else if HeadDigest(s) != expectedHead then Err(RevisionConflict)
    else if !MatchesRecord(s.records, d) then Err(RevisionConflict)
    else
      var e := Sealed(s.profile, |s.entries| + 1, HeadDigest(s), d);
      if ValidEntry(rules, e) then Ok(s.(entries := s.entries + [e])) else Err(StateCorrupt)
  }

  /** `activeAllowlistPolicy`: the revision at the chain head when the head is an activation. */
  function ActiveRecord(s: State): Option<Record> {
    if s.entries == [] || s.entries[|s.entries| - 1].decision.status == Revoked then None
    else FindRecord(s.records, s.entries[|s.entries| - 1].decision.revision)
  }

  /** `activeAssetPolicyFromState`: the policy a rail may evaluate now; an expired one is refused. */
  function ActivePolicyAt(s: State, now: int): Result<Option<Record>> {
    var active := ActiveRecord(s);
    if active.Some? && active.value.registry.body.expiresAt.Some?
      && now >= active.value.registry.body.expiresAt.value then Err(OperationBlocked)
    else Ok(active)
  }

  datatype Activation = NeverActivated | NoLongerActive | Expired | Scheduled | InForce

  /** The `status` command's one word about the policy. */
  function StatusOf(s: State, now: int): Activation {
    var active := ActiveRecord(s);
    if s.entries == [] then NeverActivated
    else if active.None? then NoLongerActive
    else
      var body := active.value.registry.body;
      if body.expiresAt.Some? && now >= body.expiresAt.value then Expired
      else if body.effectiveAt.Some? && now < body.effectiveAt.value then Scheduled
      else InForce
  }

  /** What the human is shown: the state the command read, and the revision and action to approve. */
  datatype Screen = Screen(shown: State, action: Action, record: Record)

  /** `decide` up to the approval: read, check, show. */
  function Show(rules: Rules, s: State, action: Action, revision: nat, now: int): Result<Screen> {
    if !Loads(rules, s) then Err(StateCorrupt)
    else
      var active, record := ActiveRecord(s), FindRecord(s.records, revision);
      if record.None? then Err(OperationNotFound)
      else if action == Activate && active.Some? && active.value.revision == revision then Err(InvalidInput)
      else if action == Activate && record.value.registry.body.expiresAt.Some?
        && now >= record.value.registry.body.expiresAt.value then Err(OperationBlocked)
      else if action == Revoke && (active.None? || active.value.revision != revision) then Err(InvalidInput)
      else Ok(Screen(s, action, record.value))
  }

  function DecisionOf(screen: Screen, decidedAt: int): Decision {
    var r := screen.record;
    Decision(if screen.action == Activate then Active else Revoked, r.revision, r.digest, r.registry.policyDigest,
             if screen.action == Activate then Some(r.registry) else None,
             Fingerprint(screen.action, screen.shown.profile, r.revision, r.digest, r.registry.policyDigest,
                         HeadDigest(screen.shown)), decidedAt)
  }

  /** `decide` after the human approved. */
  function Approve(rules: Rules, s: State, screen: Screen, decidedAt: int): Result<State> {
    Append(rules, s, HeadDigest(screen.shown), DecisionOf(screen, decidedAt))
  }

  // ---------------------------------------------------------------- the store

  class AllowlistPolicyStore {
    const profile: string
    var recordFiles: map<nat, Record>
    var entryFiles: map<nat, Entry>

    constructor (profile: string)
      ensures Stored(State(profile, [], []))
    {
      this.profile := profile;
      recordFiles, entryFiles := map[], map[];
    }

    /** The two directories hold exactly this state. */
    ghost predicate Stored(s: State)
      reads this
    {
      profile == s.profile && Holds(recordFiles, s.records) && Holds(entryFiles, s.entries)
    }

    /** `load`: every file checked, no gaps, and every entry linked to its predecessor and its staged revision. */
    method Load(rules: Rules) returns (r: Result<State>)
      ensures r.Ok? ==> Stored(r.value) && Loads(rules, r.value)
      ensures r.Err? ==> r == Err(StateCorrupt) && forall s :: Stored(s) ==> !Loads(rules, s)
    {
      var records := ReadNumbered(recordFiles, (n: nat, x: Record) => RecordFile(rules, profile, n, x));
      var entries := ReadNumbered(entryFiles, (n: nat, x: Entry) => EntryFile(rules, profile, n, x));
      if records.None? || entries.None? {
        forall s | Stored(s) ensures !Loads(rules, s) {
          if Loads(rules, s) { StoredIsSound(rules, s); }
        }
        return Err(StateCorrupt);
      }
      var state := State(profile, records.value, entries.value);
      if exists i :: 0 <= i < |state.entries| && !Linked(state, i) {
        forall s | Stored(s) ensures s == state { StoredUnique(s, state); }
        return Err(StateCorrupt);
      }
      StoredLoads(rules, state);
      return Ok(state);
    }

    lemma StoredIsSound(rules: Rules, s: State)
      requires Stored(s) && Loads(rules, s)
      ensures forall n | n in recordFiles :: RecordFile(rules, profile, n, recordFiles[n])
      ensures forall n | n in entryFiles :: EntryFile(rules, profile, n, entryFiles[n])
    {
      forall n | n in recordFiles ensures RecordFile(rules, profile, n, recordFiles[n]) {
        assert recordFiles[n] == s.records[n - 1];
      }
      forall n | n in entryFiles ensures EntryFile(rules, profile, n, entryFiles[n]) {
        assert entryFiles[n] == s.entries[n - 1];
      }
    }

    lemma StoredLoads(rules: Rules, s: State)
      requires Stored(s) && forall i :: 0 <= i < |s.entries| ==> Linked(s, i)
      requires forall n | n in recordFiles :: RecordFile(rules, profile, n, recordFiles[n])
      requires forall n | n in entryFiles :: EntryFile(rules, profile, n, entryFiles[n])
      ensures Loads(rules, s)
    {
      forall i | 0 <= i < |s.records| ensures RecordFile(rules, s.profile, i + 1, s.records[i]) {
        assert i + 1 in recordFiles;
      }
      forall i | 0 <= i < |s.entries| ensures EntryFile(rules, s.profile, i + 1, s.entries[i]) {
        assert i + 1 in entryFiles;
      }
    }

    lemma StoredUnique(s: State, t: State)
      requires Stored(s) && Stored(t)
      ensures s == t
    {
      HoldsUnique(recordFiles, s.records, t.records);
      HoldsUnique(entryFiles, s.entries, t.entries);
    }

    /** The checks on the state just read, account by account over the revisions. */
    static method CheckStaging(state: State, overlay: PC.Overlay, expected: Option<nat>)
      returns (refusal: Option<ErrorCode>)
      ensures refusal == StageRefusal(state, overlay, expected)
    {
      var current := if state.records == [] then None else Some(state.records[|state.records| - 1].revision);
      if expected != current { return Some(RevisionConflict); }
      for i := 0 to |state.records|
        invariant SameAccounts(state.records[..i], overlay.accounts)
      {
        var bound := state.records[i].overlay.accounts;
        if exists f | f in bound && f in overlay.accounts :: bound[f] != overlay.accounts[f] {
          return Some(ProfileDrift);
        }
      }
      assert state.records[..|state.records|] == state.records;
      if exists i :: 0 <= i < |state.records| && state.records[i].overlay.version == overlay.version {
        return Some(InvalidInput);
      }
      return None;
    }

    /** Stage one revision under the profile lock. */
    method StageRevision(rules: Rules, overlay: PC.Overlay, expected: Option<nat>, now: int, ghost s: State)
      returns (r: Result<Record>)
      requires Stored(s)
      modifies this`recordFiles
      ensures match Stage(rules, s, overlay, expected, now)
              case Ok(t) => Stored(t) && r == Ok(t.records[|t.records| - 1])
              case Err(e) => r == Err(e) && Stored(s)
    {
      var registry := rules.compile(overlay);
      if registry.None? { return Err(InvalidInput); }
      var loaded := Load(rules);
      if loaded.Err? { return Err(loaded.error); }
      var state := loaded.value;
      StoredUnique(s, state);
      var refusal := CheckStaging(state, overlay, expected);
      if refusal.Some? { return Err(refusal.value); }
      var record := NextRecord(state, overlay, registry.value, now);
      if !ValidRecord(rules, record) { return Err(StateCorrupt); }
      HoldsAppend(recordFiles, state.records, record);
      recordFiles := recordFiles[record.revision := record];
      return Ok(record);
    }

    /** Append one decision under the profile lock. */
    method AppendDecision(rules: Rules, expectedHead: Option<EntryDigest>, d: Decision, ghost s: State)
      returns (r: Result<Entry>)
      requires Stored(s)
      modifies this`entryFiles
      ensures match Append(rules, s, expectedHead, d)
              case Ok(t) => Stored(t) && r == Ok(t.entries[|t.entries| - 1])
              case Err(e) => r == Err(e) && Stored(s)
    {
      var loaded := Load(rules);
      if loaded.Err? { return Err(loaded.error); }
      var state := loaded.value;
      StoredUnique(s, state);
      if HeadDigest(state) != expectedHead || !MatchesRecord(state.records, d) { return Err(RevisionConflict); }
      var entry := Sealed(profile, |state.entries| + 1, HeadDigest(state), d);
      if !ValidEntry(rules, entry) { return Err(StateCorrupt); }
      HoldsAppend(entryFiles, state.entries, entry);
      entryFiles := entryFiles[entry.sequence := entry];
      return Ok(entry);
    }

    /** `decide` up to the approval: read the store, check the revision, and show it. */
    method ReadScreen(rules: Rules, action: Action, revision: nat, now: int, ghost s: State)
      returns (r: Result<Screen>)
      requires Stored(s)
      ensures r == Show(rules, s, action, revision, now)
    {
      var loaded := Load(rules);
      if loaded.Err? { return Err(loaded.error); }
      var state := loaded.value;
      StoredUnique(s, state);
      var active, record := ActiveRecord(state), FindRecord(state.records, revision);
      if record.None? { return Err(OperationNotFound); }
      if action == Activate {
        if active.Some? && active.value.revision == revision { return Err(InvalidInput); }
        var expiry := record.value.registry.body.expiresAt;
        if expiry.Some? && now >= expiry.value { return Err(OperationBlocked); }
      } else if active.None? || active.value.revision != revision {
        return Err(InvalidInput);
      }
      return Ok(Screen(state, action, record.value));
    }

    /** `decide` after the approval: the state may have changed while the human read the screen; the decision is
        appended only on the head it showed. */
    method Decide(rules: Rules, screen: Screen, decidedAt: int, ghost s: State) returns (r: Result<Entry>)
      requires Stored(s)
      modifies this`entryFiles
      ensures match Approve(rules, s, screen, decidedAt)
              case Ok(t) => Stored(t) && r == Ok(t.entries[|t.entries| - 1])
              case Err(e) => r == Err(e) && Stored(s)
    {
      r := AppendDecision(rules, HeadDigest(screen.shown), DecisionOf(screen, decidedAt), s);
    }
  }
}
