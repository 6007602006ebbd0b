/** Every interleaving of stage, activate and revoke commands, each decision waiting for a human between read and
    append. */
module PolicyDecisions {
  import opened Basics
  import opened PolicyStore
  import AP = AssetPolicy
  import PC = PolicyCompiler
  import PG = PolicyGrouping
  import Decimal = ChainDecimal

  /** A step of some command: staging, showing an approval screen, or a human approving one of the screens shown so
      far. */
  datatype Command =
    | StageRevision(overlay: PC.Overlay, expected: Option<nat>, now: int)
    | ShowScreen(action: Action, revision: nat, now: int)
    | ApproveScreen(screen: nat, decidedAt: int)

  /** The stored state and every screen shown; a human may answer any of them at any later time, or never. */
  datatype World = World(state: State, screens: seq<Screen>)

  function Step(rules: Rules, w: World, c: Command): World {
    match c
    case StageRevision(overlay, expected, now) =>
      var r := Stage(rules, w.state, overlay, expected, now);
      if r.Ok? then w.(state := r.value) else w
    case ShowScreen(action, revision, now) =>
      var r := Show(rules, w.state, action, revision, now);
      if r.Ok? then w.(screens := w.screens + [r.value]) else w
    case ApproveScreen(k, decidedAt) =>
      if k >= |w.screens| then w
      else
        var r := Approve(rules, w.state, w.screens[k], decidedAt);
        if r.Ok? then w.(state := r.value) else w
  }

  function Run(rules: Rules, profile: string, commands: seq<Command>): World {
    if commands == [] then World(State(profile, [], []), [])
    else Step(rules, Run(rules, profile, commands[..|commands| - 1]), commands[|commands| - 1])
  }

  // ---------------------------------------------------------------- the hash chain

  /** What a read checks, file-name width aside. */
  ghost predicate Sound(rules: Rules, s: State) {
    && (forall i ::
         0 <= i < |s.records| ==>
           ValidRecord(rules, s.records[i]) && s.records[i].revision == i + 1 && s.records[i].profile == s.profile)
    && (forall i :: 0 <= i < |s.entries| ==> SoundEntry(rules, s, i))
  }

  ghost predicate SoundEntry(rules: Rules, s: State, i: nat)
    requires i < |s.entries|
  {
    ValidEntry(rules, s.entries[i]) && s.entries[i].sequence == i + 1 && s.entries[i].profile == s.profile
      && Linked(s, i)
  }

  lemma LoadsIsSound(rules: Rules, s: State)
    ensures Loads(rules, s) <==> Sound(rules, s) && |s.records| <= MAX_NUMBER && |s.entries| <= MAX_NUMBER
  {
    if Loads(rules, s) {
      if s.records != [] { assert RecordFile(rules, s.profile, |s.records|, s.records[|s.records| - 1]); }
      if s.entries != [] { assert EntryFile(rules, s.profile, |s.entries|, s.entries[|s.entries| - 1]); }
      forall i | 0 <= i < |s.entries| ensures SoundEntry(rules, s, i) {
        assert EntryFile(rules, s.profile, i + 1, s.entries[i]);
      }
    }
    if Sound(rules, s) && |s.entries| <= MAX_NUMBER {
      forall i | 0 <= i < |s.entries| ensures EntryFile(rules, s.profile, i + 1, s.entries[i]) && Linked(s, i) {
        assert SoundEntry(rules, s, i);
      }
    }
  }

  /** The first `n` entries of a chain are pinned by the digest before the next one. */
  lemma {:induction false} DigestPinsChain(rules: Rules, s: State, t: State, i: nat, j: nat)
    requires Sound(rules, s) && Sound(rules, t) && i <= |s.entries| && j <= |t.entries|
    requires DigestBefore(s.entries, i) == DigestBefore(t.entries, j)
    ensures i == j && s.entries[..i] == t.entries[..j]
    decreases i
  {
    if i > 0 && j > 0 {
      assert SoundEntry(rules, s, i - 1) && SoundEntry(rules, t, j - 1);
      assert s.entries[i - 1] == t.entries[j - 1];
      DigestPinsChain(rules, s, t, i - 1, j - 1);
    }
  }

  /** Two readable states with the same head digest hold the same decisions: no entry can be altered, dropped or
      reordered without changing the head. */
  lemma HeadPinsEveryDecision(rules: Rules, s: State, t: State)
    requires Loads(rules, s) && Loads(rules, t) && HeadDigest(s) == HeadDigest(t)
    ensures s.entries == t.entries
  {
    LoadsIsSound(rules, s);
    LoadsIsSound(rules, t);
    DigestPinsChain(rules, s, t, |s.entries|, |t.entries|);
    assert s.entries[..|s.entries|] == s.entries && t.entries[..|t.entries|] == t.entries;
  }

  // ---------------------------------------------------------------- what every run keeps

  /** One decision in its place: the fingerprint names the head it was appended to; a revocation undoes the activation
      just before it; an activation does not repeat one. */
  ghost predicate InOrder(s: State, i: nat)
    requires i < |s.entries|
  {
    var d := s.entries[i].decision;
    && d.fingerprint ==
         Fingerprint(if d.status == Active then Activate else Revoke, s.profile, d.revision, d.record, d.policy,
                     DigestBefore(s.entries, i))
    && (d.status == Revoked <==>
         i > 0 && s.entries[i - 1].decision.status == Active && s.entries[i - 1].decision.revision == d.revision)
  }

  ghost predicate OneAccountPerFamily(records: seq<Record>) {
    forall i, j, f ::
      0 <= i < |records| && 0 <= j < |records|
      && f in records[i].overlay.accounts && f in records[j].overlay.accounts ==>
        records[i].overlay.accounts[f] == records[j].overlay.accounts[f]
  }

  ghost predicate NewVersions(records: seq<Record>) {
    forall i, j :: 0 <= i < j < |records| ==> records[i].overlay.version != records[j].overlay.version
  }

  ghost predicate Kept(rules: Rules, s: State) {
    && Sound(rules, s) && |s.records| <= MAX_NUMBER + 1 && |s.entries| <= MAX_NUMBER + 1
    && (forall i :: 0 <= i < |s.entries| ==> InOrder(s, i))
    && OneAccountPerFamily(s.records) && NewVersions(s.records)
  }

  /** A screen is what some earlier read showed. */
  ghost predicate ScreenKept(rules: Rules, s: State, screen: Screen) {
    var shown, active := screen.shown, ActiveRecord(screen.shown);
    && shown.profile == s.profile && shown.records <= s.records && shown.entries <= s.entries && Sound(rules, shown)
    && FindRecord(shown.records, screen.record.revision) == Some(screen.record)
    && (screen.action == Revoke <==> active.Some? && active.value.revision == screen.record.revision)
  }

  ghost predicate Inv(rules: Rules, w: World) {
    Kept(rules, w.state) && forall k :: 0 <= k < |w.screens| ==> ScreenKept(rules, w.state, w.screens[k])
  }

  /** The active revision is the one the head activates. */
  lemma ActiveIsHead(rules: Rules, s: State)
    requires Sound(rules, s)
    ensures var n := |s.entries|;
      && (ActiveRecord(s).Some? <==> n > 0 && s.entries[n - 1].decision.status == Active)
      && (ActiveRecord(s).Some? ==>
            && ActiveRecord(s).value.revision == s.entries[n - 1].decision.revision
            && s.entries[n - 1].decision.registry == Some(ActiveRecord(s).value.registry))
  {
    if s.entries != [] { assert SoundEntry(rules, s, |s.entries| - 1); }
  }

  lemma StageKeeps(rules: Rules, s: State, overlay: PC.Overlay, expected: Option<nat>, now: int)
    requires Kept(rules, s) && Stage(rules, s, overlay, expected, now).Ok?
    ensures Kept(rules, Stage(rules, s, overlay, expected, now).value)
    ensures s.records <= Stage(rules, s, overlay, expected, now).value.records
  {
    var record := NextRecord(s, overlay, rules.compile(overlay).value, now);
    LoadsIsSound(rules, s);
    RecordKeepsEntries(rules, s, record);
    RecordKeepsRecords(s.records, record);
  }

  lemma RecordKeepsRecords(records: seq<Record>, record: Record)
    requires OneAccountPerFamily(records) && NewVersions(records)
    requires SameAccounts(records, record.overlay.accounts) && NewVersion(records, record.overlay.version)
    ensures OneAccountPerFamily(records + [record]) && NewVersions(records + [record])
  {
  }

  lemma RecordKeepsEntries(rules: Rules, s: State, record: Record)
    requires Sound(rules, s) && ValidRecord(rules, record) && record.revision == |s.records| + 1
      && record.profile == s.profile
    requires forall i :: 0 <= i < |s.entries| ==> InOrder(s, i)
    ensures var t := s.(records := s.records + [record]);
      Sound(rules, t) && forall i :: 0 <= i < |t.entries| ==> InOrder(t, i)
  {
    var t := s.(records := s.records + [record]);
    forall i | 0 <= i < |t.entries| ensures SoundEntry(rules, t, i) && InOrder(t, i) {
      assert SoundEntry(rules, s, i) && InOrder(s, i);
      FindStays(s.records, record, s.entries[i].decision.revision);
    }
  }

  lemma {:induction false} FindStays(records: seq<Record>, record: Record, revision: nat)
    requires FindRecord(records, revision).Some?
    ensures FindRecord(records + [record], revision) == FindRecord(records, revision)
    decreases |records|
  {
    if records[0].revision != revision {
      assert (records + [record])[1..] == records[1..] + [record];
      FindStays(records[1..], record, revision);
    }
  }

  /** A decision lands only on the very chain its screen showed. */
  lemma LandsOnShownChain(rules: Rules, s: State, screen: Screen, decidedAt: int)
    requires Kept(rules, s) && ScreenKept(rules, s, screen) && Approve(rules, s, screen, decidedAt).Ok?
    ensures s.entries == screen.shown.entries
  {
    DigestPinsChain(rules, s, screen.shown, |s.entries|, |screen.shown.entries|);
    assert s.entries[..|s.entries|] == s.entries;
  }

  lemma ApproveKeeps(rules: Rules, s: State, screen: Screen, decidedAt: int)
    requires Kept(rules, s) && ScreenKept(rules, s, screen) && Approve(rules, s, screen, decidedAt).Ok?
    ensures Kept(rules, Approve(rules, s, screen, decidedAt).value)
    ensures s.entries <= Approve(rules, s, screen, decidedAt).value.entries
  {
    var e := Sealed(s.profile, |s.entries| + 1, HeadDigest(s), DecisionOf(screen, decidedAt));
    LoadsIsSound(rules, s);
    LandsOnShownChain(rules, s, screen, decidedAt);
    ActiveIsHead(rules, screen.shown);
    EntryKeeps(rules, s, e);
  }

  lemma EntryKeeps(rules: Rules, s: State, e: Entry)
    requires Sound(rules, s) && forall i :: 0 <= i < |s.entries| ==> InOrder(s, i)
    requires ValidEntry(rules, e) && e.sequence == |s.entries| + 1 && e.profile == s.profile
    requires var t := s.(entries := s.entries + [e]); Linked(t, |s.entries|) && InOrder(t, |s.entries|)
    ensures var t := s.(entries := s.entries + [e]);
      Sound(rules, t) && forall i :: 0 <= i < |t.entries| ==> InOrder(t, i)
  {
    var t := s.(entries := s.entries + [e]);
    forall i | 0 <= i < |t.entries| ensures SoundEntry(rules, t, i) && InOrder(t, i) {
      if i < |s.entries| { assert SoundEntry(rules, s, i) && InOrder(s, i); }
    }
  }

  lemma ScreensStay(rules: Rules, s: State, t: State, screens: seq<Screen>)
    requires s.profile == t.profile && s.records <= t.records && s.entries <= t.entries
    requires forall k :: 0 <= k < |screens| ==> ScreenKept(rules, s, screens[k])
    ensures forall k :: 0 <= k < |screens| ==> ScreenKept(rules, t, screens[k])
  {
    forall k | 0 <= k < |screens| ensures ScreenKept(rules, t, screens[k]) { assert ScreenKept(rules, s, screens[k]); }
  }

  lemma StageStepKeeps(rules: Rules, w: World, overlay: PC.Overlay, expected: Option<nat>, now: int)
    requires Inv(rules, w) && Stage(rules, w.state, overlay, expected, now).Ok?
    ensures Inv(rules, w.(state := Stage(rules, w.state, overlay, expected, now).value))
  {
    StageKeeps(rules, w.state, overlay, expected, now);
    ScreensStay(rules, w.state, Stage(rules, w.state, overlay, expected, now).value, w.screens);
  }

  lemma ShowStepKeeps(rules: Rules, w: World, action: Action, revision: nat, now: int)
    requires Inv(rules, w) && Show(rules, w.state, action, revision, now).Ok?
    ensures Inv(rules, w.(screens := w.screens + [Show(rules, w.state, action, revision, now).value]))
  {
    LoadsIsSound(rules, w.state);
    assert ScreenKept(rules, w.state, Show(rules, w.state, action, revision, now).value);
  }

  lemma ApproveStepKeeps(rules: Rules, w: World, k: nat, decidedAt: int)
    requires Inv(rules, w) && k < |w.screens| && Approve(rules, w.state, w.screens[k], decidedAt).Ok?
    ensures Inv(rules, w.(state := Approve(rules, w.state, w.screens[k], decidedAt).value))
    ensures w.state.entries <= Approve(rules, w.state, w.screens[k], decidedAt).value.entries
  {
    ApproveKeeps(rules, w.state, w.screens[k], decidedAt);
    ScreensStay(rules, w.state, Approve(rules, w.state, w.screens[k], decidedAt).value, w.screens);
  }

  lemma StepKeeps(rules: Rules, w: World, c: Command)
    requires Inv(rules, w)
    ensures Inv(rules, Step(rules, w, c))
  {
    match c
    case StageRevision(overlay, expected, now) =>
      if Stage(rules, w.state, overlay, expected, now).Ok? { StageStepKeeps(rules, w, overlay, expected, now); }
    case ShowScreen(action, revision, now) =>
      if Show(rules, w.state, action, revision, now).Ok? { ShowStepKeeps(rules, w, action, revision, now); }
    case ApproveScreen(k, decidedAt) =>
      if k < |w.screens| && Approve(rules, w.state, w.screens[k], decidedAt).Ok? {
        ApproveStepKeeps(rules, w, k, decidedAt);
      }
  }

  lemma StepAppends(rules: Rules, w: World, c: Command)
    ensures w.state.entries <= Step(rules, w, c).state.entries && w.state.records <= Step(rules, w, c).state.records
  {
  }

  lemma {:induction false} RunKeeps(rules: Rules, profile: string, commands: seq<Command>)
    ensures Inv(rules, Run(rules, profile, commands))
    decreases |commands|
  {
    if commands != [] {
      RunKeeps(rules, profile, commands[..|commands| - 1]);
      StepKeeps(rules, Run(rules, profile, commands[..|commands| - 1]), commands[|commands| - 1]);
    }
  }

  // ---------------------------------------------------------------- the theorems

  /** Every reachable state is readable, until a file number outgrows its eight digits. */
  lemma ReachableStatesLoad(rules: Rules, profile: string, commands: seq<Command>)
    ensures var s := Run(rules, profile, commands).state;
      Loads(rules, s) <==> |s.records| <= MAX_NUMBER && |s.entries| <= MAX_NUMBER
  {
    RunKeeps(rules, profile, commands);
    LoadsIsSound(rules, Run(rules, profile, commands).state);
  }

  /** Whatever ran between a screen and its approval, the decision is appended only if the chain is still the one
      shown. */
  lemma DecisionLandsOnItsScreen(rules: Rules, profile: string, commands: seq<Command>, k: nat, decidedAt: int)
    requires k < |Run(rules, profile, commands).screens|
    requires var w := Run(rules, profile, commands); Approve(rules, w.state, w.screens[k], decidedAt).Ok?
    ensures var w := Run(rules, profile, commands); w.state.entries == w.screens[k].shown.entries
  {
    RunKeeps(rules, profile, commands);
    var w := Run(rules, profile, commands);
    LandsOnShownChain(rules, w.state, w.screens[k], decidedAt);
  }

  /** In every reachable chain each revocation directly follows an activation of the same revision, and no activation
      directly follows one. */
  lemma DecisionsAlternate(rules: Rules, profile: string, commands: seq<Command>, i: nat)
    requires i < |Run(rules, profile, commands).state.entries|
    ensures var entries := Run(rules, profile, commands).state.entries;
      entries[i].decision.status == Revoked <==>
        i > 0 && entries[i - 1].decision.status == Active
          && entries[i - 1].decision.revision == entries[i].decision.revision
  {
    RunKeeps(rules, profile, commands);
    assert InOrder(Run(rules, profile, commands).state, i);
  }

  /** A family's account never changes across revisions, even if revisions between them omit the family. */
  lemma AccountsNeverChange(rules: Rules, profile: string, commands: seq<Command>, i: nat, j: nat, f: AP.Family)
    requires var records := Run(rules, profile, commands).state.records;
      i < |records| && j < |records| && f in records[i].overlay.accounts && f in records[j].overlay.accounts
    ensures var records := Run(rules, profile, commands).state.records;
      records[i].overlay.accounts[f] == records[j].overlay.accounts[f]
  {
    RunKeeps(rules, profile, commands);
  }

  /** Files are only ever added: a longer run extends the records and the decisions of every prefix of it. */
  lemma {:induction false} RunsOnlyAppend(rules: Rules, profile: string, commands: seq<Command>, n: nat)
    requires n <= |commands|
    ensures Run(rules, profile, commands[..n]).state.records <= Run(rules, profile, commands).state.records
    ensures Run(rules, profile, commands[..n]).state.entries <= Run(rules, profile, commands).state.entries
    decreases |commands|
  {
    if n == |commands| {
      assert commands[..n] == commands;
    } else {
      var before := commands[..|commands| - 1];
      assert before[..n] == commands[..n];
      RunsOnlyAppend(rules, profile, before, n);
      StepAppends(rules, Run(rules, profile, before), commands[|commands| - 1]);
    }
  }

  /** The active policy was staged, so its registry is valid and its window is the overlay's. */
  lemma ActiveIsStaged(rules: Rules, s: State)
    requires Loads(rules, s) && ActiveRecord(s).Some?
    ensures s.entries != [] && rules.valid(ActiveRecord(s).value.registry)
    ensures ActiveRecord(s).value.registry.body.effectiveAt.Some?
  {
    var r := ActiveRecord(s).value;
    var i :| 0 <= i < |s.records| && s.records[i] == r;
    assert RecordFile(rules, s.profile, i + 1, s.records[i]);
  }

  /** The evaluator's window, of a registry with exact instants, is open exactly from its start to before its end. */
  lemma WindowIsOpen(body: AP.RegistryBody, now: int)
    requires AP.ValidWindow(body) && body.effectiveAt.Some?
    ensures AP.CheckWindow(body, Day(now), Some(now)).Ok?
      <==> body.effectiveAt.value <= now && (body.expiresAt.Some? ==> now < body.expiresAt.value)
  {
    if body.effectiveAt.value <= now { DayMonotone(body.effectiveAt.value, now); }
  }

  /** The status word, the policy a rail loads and the evaluator's own window never disagree: it says expired exactly
      when loading refuses, and in force exactly when a policy loads that the evaluator would find in its window now. */
  lemma StatusAgreesWithRails(rules: Rules, s: State, now: int)
    requires Loads(rules, s) && forall r: AP.Registry :: rules.valid(r) ==> AP.ValidWindow(r.body)
    ensures StatusOf(s, now) == Expired <==> ActivePolicyAt(s, now) == Err(OperationBlocked)
    ensures StatusOf(s, now) == InForce <==>
      ActivePolicyAt(s, now).Ok? && ActivePolicyAt(s, now).value.Some?
      && AP.CheckWindow(ActivePolicyAt(s, now).value.value.registry.body, Day(now), Some(now)).Ok?
  {
    var active := ActiveRecord(s);
    if active.Some? {
      ActiveIsStaged(rules, s);
      WindowIsOpen(active.value.registry.body, now);
    }
  }

  // ---------------------------------------------------------------- the eight digits are a real limit

  /** The compiler and the validator the store is given, over an inventory and the address codecs. */
  ghost function OverlayRules(codec: AP.Codec, inv: PC.Inventory): Rules {
    Rules((o: PC.Overlay) => if PC.Accepted(codec, inv, o) then Registered(codec, inv, o) else None,
          (r: AP.Registry) => AP.ValidRegistry(codec, r))
  }

  ghost function Registered(codec: AP.Codec, inv: PC.Inventory, o: PC.Overlay): Option<AP.Registry>
    requires PC.Accepted(codec, inv, o)
  {
    var r := AP.Seal(codec, PG.CompiledBody(inv, o));
    if r.Ok? then Some(r.value) else None
  }

  /** A new version text for each revision: v1, v2, and so on. */
  function Version(n: nat): string { "v" + Decimal.Numeral(n) }

  lemma VersionIsShort(n: nat)
    requires n <= MAX_NUMBER + 1
    ensures AP.IsVersion(Version(n))
  {
    assert Decimal.Power(4) == 10_000 && Decimal.Power(9) == 1_000_000_000;
    Decimal.NumeralLength(n, 9);
  }

  lemma VersionsDiffer(m: nat, n: nat)
    requires m != n
    ensures Version(m) != Version(n)
  {
    Decimal.ValueOfNumeral(m);
    Decimal.ValueOfNumeral(n);
    assert Version(m)[1..] == Decimal.Numeral(m) && Version(n)[1..] == Decimal.Numeral(n);
  }

  /** Stage one list `n` times, under a fresh version each time and naming the revision before. */
  function Stagings(o: PC.Overlay, n: nat): (c: seq<Command>)
    ensures |c| == n
  {
    if n == 0 then [] else Stagings(o, n - 1) + [Staging(o, n)]
  }

  function Staging(o: PC.Overlay, n: nat): Command
    requires n > 0
  {
    StageRevision(o.(version := Version(n)), if n == 1 then None else Some(n - 1), 0)
  }

  /** The rules compile the list under every version text. */
  ghost predicate Restagable(rules: Rules, o: PC.Overlay) {
    forall n: nat :: n <= MAX_NUMBER + 1 ==> Compiles(rules, o.(version := Version(n)))
  }

  ghost predicate Compiles(rules: Rules, o: PC.Overlay) {
    rules.compile(o).Some? && Belongs(rules, o, rules.compile(o).value)
  }

  ghost predicate Staged(s: State, o: PC.Overlay, n: nat) {
    && |s.records| == n && s.entries == []
    && forall i :: 0 <= i < n ==> s.records[i].overlay == o.(version := Version(i + 1))
  }

  lemma {:induction false} StagingsRun(rules: Rules, profile: string, o: PC.Overlay, n: nat)
    requires n <= MAX_NUMBER + 1 && Restagable(rules, o)
    ensures Staged(Run(rules, profile, Stagings(o, n)).state, o, n)
    decreases n
  {
    if n > 0 {
      StagingsRun(rules, profile, o, n - 1);
      var w := Run(rules, profile, Stagings(o, n - 1));
      assert Stagings(o, n)[..n - 1] == Stagings(o, n - 1);
      assert Run(rules, profile, Stagings(o, n)) == Step(rules, w, Staging(o, n));
      RunKeeps(rules, profile, Stagings(o, n - 1));
      StagingSucceeds(rules, w, o, n);
    }
  }

  lemma NothingRefused(s: State, o: PC.Overlay, n: nat)
    requires n > 0 && Staged(s, o, n - 1) && (n > 1 ==> s.records[n - 2].revision == n - 1)
    ensures StageRefusal(s, Staging(o, n).overlay, Staging(o, n).expected).None?
  {
    forall i | 0 <= i < n - 1 ensures s.records[i].overlay.version != Version(n) { VersionsDiffer(i + 1, n); }
  }

  lemma StagingSucceeds(rules: Rules, w: World, o: PC.Overlay, n: nat)
    requires 1 <= n <= MAX_NUMBER + 1 && Restagable(rules, o) && Inv(rules, w) && Staged(w.state, o, n - 1)
    ensures Staged(Step(rules, w, Staging(o, n)).state, o, n)
  {
    LoadsIsSound(rules, w.state);
    if n > 1 { assert ValidRecord(rules, w.state.records[n - 2]) && w.state.records[n - 2].revision == n - 1; }
    NothingRefused(w.state, o, n);
    StagingAppends(rules, w.state, o.(version := Version(n)), Staging(o, n).expected);
  }

  lemma StagingAppends(rules: Rules, s: State, o: PC.Overlay, expected: Option<nat>)
    requires Compiles(rules, o) && Loads(rules, s) && StageRefusal(s, o, expected).None?
    ensures Stage(rules, s, o, expected, 0) ==
      Ok(s.(records := s.records + [NextRecord(s, o, rules.compile(o).value, 0)]))
  {
  }

  lemma VersionIsFree(codec: AP.Codec, inv: PC.Inventory, o: PC.Overlay, v: string)
    requires PC.Accepted(codec, inv, o) && AP.IsVersion(v)
    ensures PC.Accepted(codec, inv, o.(version := v))
    ensures PG.CompiledBody(inv, o.(version := v)) == PG.CompiledBody(inv, o).(version := v)
  {
  }

  lemma AcceptedIsRestagable(codec: AP.Codec, inv: PC.Inventory, o: PC.Overlay)
    requires PC.Accepted(codec, inv, o) && AP.Seal(codec, PG.CompiledBody(inv, o)).Ok?
    ensures Restagable(OverlayRules(codec, inv), o)
  {
    forall n: nat | n <= MAX_NUMBER + 1 ensures Compiles(OverlayRules(codec, inv), o.(version := Version(n))) {
      VersionIsShort(n);
      VersionIsFree(codec, inv, o, Version(n));
      assert AP.ValidBody(codec, PG.CompiledBody(inv, o).(version := Version(n)));
    }
  }

  /** Whatever list the owner stages over and over, changing only its version, the profile reads after every staging up
      to 99,999,999 and no longer after the next one. */
  lemma HundredMillionRevisionsDoNotLoad(codec: AP.Codec, inv: PC.Inventory, profile: string, o: PC.Overlay, n: nat)
    requires PC.Accepted(codec, inv, o) && AP.Seal(codec, PG.CompiledBody(inv, o)).Ok? && n <= MAX_NUMBER + 1
    ensures Loads(OverlayRules(codec, inv), Run(OverlayRules(codec, inv), profile, Stagings(o, n)).state)
      <==> n <= MAX_NUMBER
  {
    AcceptedIsRestagable(codec, inv, o);
    StagingsRun(OverlayRules(codec, inv), profile, o, n);
    ReachableStatesLoad(OverlayRules(codec, inv), profile, Stagings(o, n));
  }
}
