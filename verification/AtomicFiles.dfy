/** Crash-safe publication of record files: staged writers, directory sweeps and repairs, under every interleaving. */
module AtomicFiles {
  import opened Basics

  type Bytes = seq<int>

  const ORPHAN_AGE_MS := 600_000

  /** A record's own name, or a staged name carrying the target's hash prefix and a nonce. */
  datatype Name = Target(path: string) | Stage(prefix: nat, nonce: nat)

  datatype Phase = Writing | Filled | Closing | Finished

  /** A writer and the one file it created, with the clock readings, by their place in the run, at which it opened and
      last wrote it; a killed writer is one that takes no further step. */
  datatype Writer = Writer(
    target: string, bytes: Bytes, createOnly: bool, stage: Name, phase: Phase, content: Bytes, touched: nat, since: nat)

  /** A repair of one target seen with two links: the file it saw, the stage it is about to unlink, and whether it has
      unlinked one. */
  datatype Release = Release(target: string, file: nat, pending: Option<Name>, released: bool)

  /** Files are numbered by the writer that created them; `readings` are the clock's so far, in any order of magnitude;
      `used` are the staged names so far, which never repeat, and `doomed` those that sweepers decided to unlink. */
  datatype World = World(
    names: map<Name, nat>, writers: map<nat, Writer>, readings: seq<int>, used: set<Name>, doomed: set<Name>,
    releases: map<nat, Release>)

  datatype Step =
    | SetClock(reading: int)
    | Open(w: nat, target: string, bytes: Bytes, createOnly: bool, nonce: nat)
    | Write(w: nat, length: nat)
    | Rename(w: nat)
    | Link(w: nat)
    | Close(w: nat)
    | SweepLook(name: Name)
    | SweepUnlink(name: Name)
    | ReleaseBegin(r: nat, target: string)
    | ReleaseLook(r: nat, name: Name)
    | ReleaseUnlink(r: nat)

  const START := World(map[], map[], [0], {}, {}, map[])

  function Links(names: map<Name, nat>, file: nat): set<Name> { set n | n in names && names[n] == file }

  function Content(s: World, path: string): Option<Bytes> {
    if Target(path) in s.names && s.names[Target(path)] in s.writers then
      Some(s.writers[s.names[Target(path)]].content)
    else None
  }

  /** The place of the clock's current reading. */
  function Latest(s: World): nat { if s.readings == [] then 0 else |s.readings| - 1 }

  /** How old a file looks now. */
  function Age(s: World, x: Writer): int {
    if x.touched < |s.readings| then s.readings[Latest(s)] - s.readings[x.touched] else 0
  }

  /** From this reading on, the clock once read ten minutes more than it had read before. */
  ghost predicate Jumped(readings: seq<int>, since: nat) {
    exists j, k :: since <= j <= k < |readings| && readings[k] - readings[j] >= ORPHAN_AGE_MS
  }

  lemma StillJumped(readings: seq<int>, since: nat, reading: int)
    requires Jumped(readings, since)
    ensures Jumped(readings + [reading], since)
  {
    var j, k :| since <= j <= k < |readings| && readings[k] - readings[j] >= ORPHAN_AGE_MS;
    var later := readings + [reading];
    assert later[k] - later[j] >= ORPHAN_AGE_MS;
  }

  /** A step that cannot be taken changes nothing. `prefix` is the hash that names a target's stages. */
  function Next(prefix: string -> nat, s: World, step: Step): World {
    match step
    case SetClock(reading) => s.(readings := s.readings + [reading])
    case Open(w, target, bytes, createOnly, nonce) =>
      var stage := Stage(prefix(target), nonce);
      if w in s.writers || stage in s.used then s
      else
        var x := Writer(target, bytes, createOnly, stage, Writing, [], Latest(s), Latest(s));
        s.(names := s.names[stage := w], used := s.used + {stage}, writers := s.writers[w := x])
    case Write(w, length) =>
      if !(w in s.writers && s.writers[w].phase == Writing && length <= |s.writers[w].bytes|) then s
      else
        var x := s.writers[w];
        s.(writers := s.writers[w := x.(content := x.bytes[..length], touched := Latest(s),
                                        phase := if length == |x.bytes| then Filled else Writing)])
    case Rename(w) =>
      if !(w in s.writers && s.writers[w].phase == Filled && !s.writers[w].createOnly) then s
      else
        var x := s.writers[w];
        s.(names := if x.stage in s.names then (s.names - {x.stage})[Target(x.target) := s.names[x.stage]] else s.names,
           writers := s.writers[w := x.(phase := Finished)])
    case Link(w) =>
      if !(w in s.writers && s.writers[w].phase == Filled && s.writers[w].createOnly) then s
      else
        var x := s.writers[w];
        var free := x.stage in s.names && Target(x.target) !in s.names;
        s.(names := if free then s.names[Target(x.target) := s.names[x.stage]] else s.names,
           writers := s.writers[w := x.(phase := Closing)])
    case Close(w) =>
      if !(w in s.writers && s.writers[w].phase == Closing) then s
      else s.(names := s.names - {s.writers[w].stage}, writers := s.writers[w := s.writers[w].(phase := Finished)])
    case SweepLook(name) =>
      if name.Stage? && name in s.names && s.names[name] in s.writers && |Links(s.names, s.names[name])| == 1
         && Age(s, s.writers[s.names[name]]) >= ORPHAN_AGE_MS
      then s.(doomed := s.doomed + {name}) else s
    case SweepUnlink(name) =>
      if name in s.doomed then s.(names := s.names - {name}, doomed := s.doomed - {name}) else s
    case ReleaseBegin(r, target) =>
      if r !in s.releases && Target(target) in s.names && |Links(s.names, s.names[Target(target)])| == 2
      then s.(releases := s.releases[r := Release(target, s.names[Target(target)], None, false)]) else s
    case ReleaseLook(r, name) =>
      if r in s.releases && s.releases[r].pending.None? && name.Stage? && name.prefix == prefix(s.releases[r].target)
         && name in s.names && s.names[name] == s.releases[r].file
      then s.(releases := s.releases[r := s.releases[r].(pending := Some(name))]) else s
    case ReleaseUnlink(r) =>
      if r in s.releases && s.releases[r].pending.Some?
      then s.(names := s.names - {s.releases[r].pending.value},
              releases := s.releases[r := s.releases[r].(pending := None, released := true)]) else s
  }

  function Run(prefix: string -> nat, steps: seq<Step>): World {
    if steps == [] then START else Next(prefix, Run(prefix, steps[..|steps| - 1]), steps[|steps| - 1])
  }

  /** `releasePublishedTemporary` returns true. */
  predicate Succeeded(s: World, r: Release) {
    r.released || (Target(r.target) in s.names && s.names[Target(r.target)] == r.file && |Links(s.names, r.file)| == 1)
  }

  // ---------------------------------------------------------------- what every step keeps

  /** A published file carries its writer's complete bytes under its own target; a staged name is its writer's own. */
  ghost predicate NamedRight(s: World, n: Name) {
    n in s.names ==>
      && s.names[n] in s.writers
      && var x := s.writers[s.names[n]];
      match n
      case Target(path) => path == x.target && x.content == x.bytes && (x.phase == Closing || x.phase == Finished)
      case Stage(_, _) => n == x.stage && x.phase != Finished
  }

  /** A stage is lost only to a clock that jumped ten minutes since it was opened. */
  ghost predicate WriterRight(s: World, i: nat) {
    i in s.writers ==>
      var x := s.writers[i];
      && x.stage.Stage? && x.stage in s.used && x.since <= x.touched < |s.readings|
      && (x.phase != Writing ==> x.content == x.bytes)
      && (x.stage in s.doomed ==> Jumped(s.readings, x.since))
      && ((x.phase == Writing || x.phase == Filled) && x.stage !in s.names ==> Jumped(s.readings, x.since))
  }

  ghost predicate OwnStages(s: World) {
    forall i, j :: i in s.writers && j in s.writers && s.writers[i].stage == s.writers[j].stage ==> i == j
  }

  ghost predicate ReleaseRight(s: World, r: nat) {
    r in s.releases ==>
      var x := s.releases[r];
      && x.file in s.writers && s.writers[x.file].target == x.target
      && (s.writers[x.file].phase == Closing || s.writers[x.file].phase == Finished)
      && (x.pending.Some? ==> x.pending.value == s.writers[x.file].stage)
      && (x.released ==> s.writers[x.file].stage !in s.names)
  }

  ghost predicate Inv(s: World) {
    && (forall n :: NamedRight(s, n))
    && (forall i :: WriterRight(s, i))
    && OwnStages(s)
    && (forall r :: ReleaseRight(s, r))
    && s.doomed <= s.used && (forall n | n in s.used :: n.Stage?) && s.readings != []
  }

  lemma OpenKeeps(prefix: string -> nat, s: World, step: Step)
    requires Inv(s) && step.Open?
    ensures Inv(Next(prefix, s, step))
  {
    var t := Next(prefix, s, step);
    forall n ensures NamedRight(t, n) {
      assert NamedRight(s, n);
      if n in s.names { assert WriterRight(s, s.names[n]); }
    }
    forall i ensures WriterRight(t, i) { assert WriterRight(s, i); }
    forall r ensures ReleaseRight(t, r) { ReleaseUndisturbed(s, t, r); }
    forall i, j | i in t.writers && j in t.writers && t.writers[i].stage == t.writers[j].stage ensures i == j {
      assert WriterRight(s, i) && WriterRight(s, j);
    }
  }

  /** A writer's own step, whatever it is, does not disturb a repair: a staged name is never added back. */
  lemma ReleaseUndisturbed(s: World, t: World, r: nat)
    requires Inv(s) && t.releases == s.releases
    requires forall i | i in s.writers ::
      i in t.writers && t.writers[i].stage == s.writers[i].stage && t.writers[i].target == s.writers[i].target
    requires forall i | i in s.writers && s.writers[i].phase in {Closing, Finished} ::
      t.writers[i].phase in {Closing, Finished}
    requires forall n: Name | n.Stage? && n in t.names :: n in s.names || n !in s.used
    ensures ReleaseRight(t, r)
  {
    assert ReleaseRight(s, r);
    if r in s.releases { assert WriterRight(s, s.releases[r].file); }
  }

  lemma WriteKeeps(prefix: string -> nat, s: World, step: Step)
    requires Inv(s) && step.Write?
    ensures Inv(Next(prefix, s, step))
  {
    var t := Next(prefix, s, step);
    forall n ensures NamedRight(t, n) { WriteNames(prefix, s, step, n); }
    forall i ensures WriterRight(t, i) { WriteWriters(prefix, s, step, i); }
    forall r ensures ReleaseRight(t, r) { ReleaseUndisturbed(s, t, r); }
  }

  lemma WriteNames(prefix: string -> nat, s: World, step: Step, n: Name)
    requires NamedRight(s, n) && step.Write?
    ensures NamedRight(Next(prefix, s, step), n)
  {
  }

  lemma WriteWriters(prefix: string -> nat, s: World, step: Step, i: nat)
    requires WriterRight(s, i) && s.readings != [] && step.Write?
    ensures WriterRight(Next(prefix, s, step), i)
  {
  }

  /** A publication moves or adds the target's name only. */
  lemma PublishKeeps(prefix: string -> nat, s: World, step: Step)
    requires Inv(s) && (step.Rename? || step.Link?)
    ensures Inv(Next(prefix, s, step))
  {
    var t := Next(prefix, s, step);
    forall n ensures NamedRight(t, n) { PublishNames(prefix, s, step, n); }
    forall i ensures WriterRight(t, i) { PublishWriters(prefix, s, step, i); }
    forall r ensures ReleaseRight(t, r) { PublishReleases(prefix, s, step, r); }
  }

  lemma PublishReleases(prefix: string -> nat, s: World, step: Step, r: nat)
    requires Inv(s) && (step.Rename? || step.Link?)
    ensures ReleaseRight(Next(prefix, s, step), r)
  {
    assert WriterRight(s, step.w);
    ReleaseUndisturbed(s, Next(prefix, s, step), r);
  }

  lemma PublishWriters(prefix: string -> nat, s: World, step: Step, i: nat)
    requires Inv(s) && (step.Rename? || step.Link?)
    ensures WriterRight(Next(prefix, s, step), i)
  {
    assert WriterRight(s, i) && WriterRight(s, step.w);
    if step.w in s.writers { assert NamedRight(s, s.writers[step.w].stage); }
  }

  lemma PublishNames(prefix: string -> nat, s: World, step: Step, n: Name)
    requires Inv(s) && (step.Rename? || step.Link?)
    ensures NamedRight(Next(prefix, s, step), n)
  {
    assert NamedRight(s, n) && WriterRight(s, step.w);
    if step.w in s.writers {
      assert NamedRight(s, s.writers[step.w].stage);
      if s.writers[step.w].stage in s.names { assert s.names[s.writers[step.w].stage] == step.w; }
    }
  }

  lemma CloseKeeps(prefix: string -> nat, s: World, step: Step)
    requires Inv(s) && step.Close?
    ensures Inv(Next(prefix, s, step))
  {
    var t := Next(prefix, s, step);
    assert WriterRight(s, step.w);
    forall n ensures NamedRight(t, n) { assert NamedRight(s, n); }
    forall i ensures WriterRight(t, i) { assert WriterRight(s, i); }
    forall r ensures ReleaseRight(t, r) { ReleaseUndisturbed(s, t, r); }
  }

  lemma ClockKeeps(prefix: string -> nat, s: World, step: Step)
    requires Inv(s) && step.SetClock?
    ensures Inv(Next(prefix, s, step))
  {
    var t := Next(prefix, s, step);
    forall n ensures NamedRight(t, n) { assert NamedRight(s, n); }
    forall i ensures WriterRight(t, i) {
      assert WriterRight(s, i);
      if i in s.writers && Jumped(s.readings, s.writers[i].since) {
        StillJumped(s.readings, s.writers[i].since, step.reading);
      }
    }
    forall r ensures ReleaseRight(t, r) { assert ReleaseRight(s, r); }
  }

  lemma LookedOld(s: World, x: Writer)
    requires x.since <= x.touched < |s.readings| && Age(s, x) >= ORPHAN_AGE_MS
    ensures Jumped(s.readings, x.since)
  {
    assert s.readings[Latest(s)] - s.readings[x.touched] >= ORPHAN_AGE_MS;
  }

  lemma SweepStepKeeps(prefix: string -> nat, s: World, step: Step)
    requires Inv(s) && (step.SweepLook? || step.SweepUnlink?)
    ensures Inv(Next(prefix, s, step))
  {
    var t := Next(prefix, s, step);
    forall n ensures NamedRight(t, n) { assert NamedRight(s, n); }
    if step.SweepLook? && step.name in s.names {
      assert NamedRight(s, step.name) && WriterRight(s, s.names[step.name]);
      var x := s.writers[s.names[step.name]];
      if Age(s, x) >= ORPHAN_AGE_MS { LookedOld(s, x); }
    }
    forall i ensures WriterRight(t, i) { assert WriterRight(s, i); }
    forall r ensures ReleaseRight(t, r) { assert ReleaseRight(s, r); }
  }

  lemma ReleaseStepKeeps(prefix: string -> nat, s: World, step: Step)
    requires Inv(s) && (step.ReleaseBegin? || step.ReleaseLook? || step.ReleaseUnlink?)
    ensures Inv(Next(prefix, s, step))
  {
    var t := Next(prefix, s, step);
    assert ReleaseRight(s, step.r);
    if step.ReleaseLook? { assert NamedRight(s, step.name); }
    if step.ReleaseBegin? { assert NamedRight(s, Target(step.target)); }
    forall n ensures NamedRight(t, n) { assert NamedRight(s, n); }
    forall i ensures WriterRight(t, i) { assert WriterRight(s, i); }
    forall r ensures ReleaseRight(t, r) { assert ReleaseRight(s, r); }
  }

  lemma StepKeeps(prefix: string -> nat, s: World, step: Step)
    requires Inv(s)
    ensures Inv(Next(prefix, s, step))
  {
    match step
    case Open(_, _, _, _, _) => OpenKeeps(prefix, s, step);
    case Write(_, _) => WriteKeeps(prefix, s, step);
    case Rename(_) => PublishKeeps(prefix, s, step);
    case Link(_) => PublishKeeps(prefix, s, step);
    case Close(_) => CloseKeeps(prefix, s, step);
    case SetClock(_) => ClockKeeps(prefix, s, step);
    case SweepLook(_) => SweepStepKeeps(prefix, s, step);
    case SweepUnlink(_) => SweepStepKeeps(prefix, s, step);
    case ReleaseBegin(_, _) => ReleaseStepKeeps(prefix, s, step);
    case ReleaseLook(_, _) => ReleaseStepKeeps(prefix, s, step);
    case ReleaseUnlink(_) => ReleaseStepKeeps(prefix, s, step);
  }

  lemma {:induction false} RunKeeps(prefix: string -> nat, steps: seq<Step>)
    ensures Inv(Run(prefix, steps))
    decreases |steps|
  {
    if steps != [] {
      RunKeeps(prefix, steps[..|steps| - 1]);
      StepKeeps(prefix, Run(prefix, steps[..|steps| - 1]), steps[|steps| - 1]);
    }
  }

  // ---------------------------------------------------------------- the theorems

  /** This step is a writer's own publication of this target. */
  ghost predicate Publishes(s: World, step: Step, path: string) {
    && (step.Rename? || step.Link?) && step.w in s.writers
    && var x := s.writers[step.w]; x.target == path && x.phase == Filled && x.stage in s.names
  }

  /** A target's bytes change only when a writer publishes it, and then to that writer's complete bytes; sweeps,
      repairs, killed writers and partly written stages never show. */
  lemma OnlyPublicationChangesATarget(prefix: string -> nat, steps: seq<Step>, step: Step, path: string)
    requires var s := Run(prefix, steps); Content(Next(prefix, s, step), path) != Content(s, path)
    ensures var s := Run(prefix, steps);
      Publishes(s, step, path) && Content(Next(prefix, s, step), path) == Some(s.writers[step.w].bytes)
  {
    var s := Run(prefix, steps);
    RunKeeps(prefix, steps);
    ContentStep(prefix, s, step, path);
  }

  lemma ContentStep(prefix: string -> nat, s: World, step: Step, path: string)
    requires Inv(s)
    ensures var t := Next(prefix, s, step);
      Content(t, path) == Content(s, path)
        || (Publishes(s, step, path) && Content(t, path) == Some(s.writers[step.w].bytes))
  {
    assert NamedRight(s, Target(path));
    match step
    case Rename(w) => PublishContent(prefix, s, step, path);
    case Link(w) => PublishContent(prefix, s, step, path);
    case Close(w) => assert WriterRight(s, w);
    case SweepUnlink(name) =>
    case ReleaseUnlink(r) =>
      assert ReleaseRight(s, r);
      if r in s.releases { assert WriterRight(s, s.releases[r].file); }
    case _ =>
  }

  lemma PublishContent(prefix: string -> nat, s: World, step: Step, path: string)
    requires Inv(s) && (step.Rename? || step.Link?)
    ensures var t := Next(prefix, s, step);
      Content(t, path) == Content(s, path)
        || (Publishes(s, step, path) && Content(t, path) == Some(s.writers[step.w].bytes))
  {
    assert NamedRight(s, Target(path)) && WriterRight(s, step.w);
    if step.w in s.writers { assert NamedRight(s, s.writers[step.w].stage); }
  }

  /** A target written only by create-only writers never changes once it exists. */
  lemma {:induction false} CreateOnlyTargetsNeverChange(prefix: string -> nat, steps: seq<Step>, n: nat, path: string)
    requires n <= |steps| && Content(Run(prefix, steps[..n]), path).Some?
    requires forall i :: 0 <= i < |steps| && steps[i].Open? && steps[i].target == path ==> steps[i].createOnly
    ensures Content(Run(prefix, steps), path) == Content(Run(prefix, steps[..n]), path)
    decreases |steps|
  {
    if n == |steps| {
      assert steps[..n] == steps;
    } else {
      var before, last := steps[..|steps| - 1], steps[|steps| - 1];
      assert before[..n] == steps[..n];
      CreateOnlyTargetsNeverChange(prefix, before, n, path);
      RunKeeps(prefix, before);
      CreateOnlyWriters(prefix, before, path);
      ContentStep(prefix, Run(prefix, before), last, path);
    }
  }

  ghost predicate OnlyCreates(s: World, path: string) {
    forall i | i in s.writers && s.writers[i].target == path :: s.writers[i].createOnly
  }

  lemma StepOnlyCreates(prefix: string -> nat, s: World, step: Step, path: string)
    requires OnlyCreates(s, path) && (step.Open? && step.target == path ==> step.createOnly)
    ensures OnlyCreates(Next(prefix, s, step), path)
  {
  }

  lemma {:induction false} CreateOnlyWriters(prefix: string -> nat, steps: seq<Step>, path: string)
    requires forall i :: 0 <= i < |steps| && steps[i].Open? && steps[i].target == path ==> steps[i].createOnly
    ensures OnlyCreates(Run(prefix, steps), path)
    decreases |steps|
  {
    if steps != [] {
      var before := steps[..|steps| - 1];
      CreateOnlyWriters(prefix, before, path);
      StepOnlyCreates(prefix, Run(prefix, before), steps[|steps| - 1], path);
    }
  }

  /** A writer is never undone by a sweep or a repair unless the clock, since the writer opened its stage, once read ten
      minutes more than at an earlier reading; setting the clock back does no harm. */
  lemma PromptWriterPublishes(prefix: string -> nat, steps: seq<Step>, w: nat)
    requires var s := Run(prefix, steps);
      w in s.writers && s.writers[w].phase == Filled && !Jumped(s.readings, s.writers[w].since)
    ensures var s := Run(prefix, steps); var x := s.writers[w];
      if x.createOnly then Target(x.target) !in s.names ==> Content(Next(prefix, s, Link(w)), x.target) == Some(x.bytes)
      else Content(Next(prefix, s, Rename(w)), x.target) == Some(x.bytes)
  {
    var s := Run(prefix, steps);
    RunKeeps(prefix, steps);
    assert WriterRight(s, w) && NamedRight(s, s.writers[w].stage);
  }

  lemma LinksOfAFile(s: World, file: nat)
    requires Inv(s) && file in s.writers
    ensures Links(s.names, file) <= {Target(s.writers[file].target), s.writers[file].stage}
  {
    forall n | n in Links(s.names, file) ensures n in {Target(s.writers[file].target), s.writers[file].stage} {
      assert NamedRight(s, n);
    }
  }

  /** A successful repair leaves the file it saw, while it is still the target's, with that one link and its complete
      bytes. */
  lemma RepairLeavesOneLink(prefix: string -> nat, steps: seq<Step>, r: nat)
    requires var s := Run(prefix, steps); r in s.releases && Succeeded(s, s.releases[r])
    requires var s := Run(prefix, steps); var x := s.releases[r];
      Target(x.target) in s.names && s.names[Target(x.target)] == x.file
    ensures var s := Run(prefix, steps); var x := s.releases[r];
      Links(s.names, x.file) == {Target(x.target)} && x.file in s.writers
        && Content(s, x.target) == Some(s.writers[x.file].bytes)
  {
    var s := Run(prefix, steps);
    RunKeeps(prefix, steps);
    var x := s.releases[r];
    assert ReleaseRight(s, r) && NamedRight(s, Target(x.target));
    LinksOfAFile(s, x.file);
    if !x.released {
      var links := Links(s.names, x.file);
      assert |links - {Target(x.target)}| == 0;
      assert links - {Target(x.target)} == {};
    }
  }
}

/** The two functions of the repository, each on its own view of one directory. */
module AtomicDirectory {
  import opened AtomicFiles

  /** What `lstat` tells of a file besides its links. */
  datatype Info = Info(isFile: bool, uid: nat, touched: int)

  class Directory {
    /** Which file each name is, and what is known of each file. */
    var names: map<Name, nat>
    var files: map<nat, Info>

    constructor (names: map<Name, nat>, files: map<nat, Info>)
      ensures this.names == names && this.files == files
    {
      this.names, this.files := names, files;
    }

    /** `withoutAtomicTemporaries`: list records only; unlink abandoned stages, skip any other staged name. */
    method WithoutAtomicTemporaries(listing: seq<Name>, uid: nat, now: int) returns (records: seq<Name>)
      modifies this`names
      ensures records == Records(listing)
      ensures names == old(names) - Abandoned(old(names), files, listing, uid, now)
    {
      records := [];
      assert names - {} == names;
      for i := 0 to |listing|
        invariant records == Records(listing[..i])
        invariant names == old(names) - Abandoned(old(names), files, listing[..i], uid, now)
      {
        var name := listing[i];
        assert listing[..i + 1] == listing[..i] + [name];
        ghost var before := names;
        if name.Target? {
          records := records + [name];
        } else if name in names && |Links(names, names[name])| == 1 && Orphan(files, names[name], uid, now) {
          names := names - {name};
        }
        SweepOne(old(names), files, listing[..i], uid, now, name, before, names);
      }
      assert listing[..|listing|] == listing;
    }

    /** `releasePublishedTemporary`, for the file and link count the caller's look at the target found; by now another
        process may have changed the directory. It unlinks the stages of that file and target; when there are none, a
        second look tells whether the file is the target's and back to one link. */
    method ReleasePublishedTemporary(prefix: nat, path: string, file: nat, links: nat, listing: seq<Name>)
      returns (released: bool)
      requires forall n :: n in names ==> n in listing
      modifies this`names
      ensures var look := links == 2 && IsFile(files, file);
        && (forall n :: n in names <==>
             n in old(names) && !(look && n.Stage? && n.prefix == prefix && old(names)[n] == file))
        && (forall n :: n in names ==> names[n] == old(names)[n])
        && released == (look && (OneLink(old(names), path, file) || HasStage(old(names), prefix, file)))
      ensures released && Published(old(names), path, file) ==> Links(names, file) == {Target(path)}
    {
      if links != 2 || !IsFile(files, file) { return false; }
      released := false;
      for i := 0 to |listing|
        invariant forall n ::
          n in names <==> n in old(names) && !(n in listing[..i] && OwnStage(old(names), prefix, file, n))
        invariant forall n :: n in names ==> names[n] == old(names)[n]
        invariant released <==>
          exists n :: n in listing[..i] && n in old(names) && OwnStage(old(names), prefix, file, n)
      {
        var name := listing[i];
        assert listing[..i + 1] == listing[..i] + [name];
        assert name in listing[..i + 1];
        if name.Stage? && name.prefix == prefix && name in names && names[name] == file {
          assert OwnStage(old(names), prefix, file, name);
          names := names - {name};
          released := true;
        }
      }
      assert listing[..|listing|] == listing;
      if !released {
        assert names == old(names);
        released := OneLink(names, path, file);
        if released { SoleLink(names, path, file); }
      } else if Published(old(names), path, file) {
        OneLinkLeft(old(names), names, prefix, path, file);
      }
    }
  }

  predicate HasStage(names: map<Name, nat>, prefix: nat, file: nat) {
    exists n :: n in names && OwnStage(names, prefix, file, n)
  }

  predicate IsFile(files: map<nat, Info>, file: nat) { file in files && files[file].isFile }

  /** The target is this file, and the file has no other name. */
  predicate OneLink(names: map<Name, nat>, path: string, file: nat) {
    Target(path) in names && names[Target(path)] == file && |Links(names, file)| == 1
  }

  /** The target is this file, and the file has at most one other name. */
  predicate Published(names: map<Name, nat>, path: string, file: nat) {
    Target(path) in names && names[Target(path)] == file && |Links(names, file)| <= 2
  }

  lemma SoleLink(names: map<Name, nat>, path: string, file: nat)
    requires OneLink(names, path, file)
    ensures Links(names, file) == {Target(path)}
  {
    assert |Links(names, file) - {Target(path)}| == 0;
    assert Links(names, file) - {Target(path)} == {};
  }

  function Records(listing: seq<Name>): seq<Name> {
    if listing == [] then []
    else Records(listing[..|listing| - 1]) + (if listing[|listing| - 1].Target? then [listing[|listing| - 1]] else [])
  }

  /** A regular file of this user, untouched for ten minutes. */
  predicate Orphan(files: map<nat, Info>, file: nat, uid: nat, now: int) {
    file in files && files[file].isFile && files[file].uid == uid && now - files[file].touched >= ORPHAN_AGE_MS
  }

  /** Listed staged names that are the only link of such a file. */
  function Abandoned(names: map<Name, nat>, files: map<nat, Info>, listing: seq<Name>, uid: nat, now: int): set<Name> {
    set n | n in listing && n.Stage? && n in names && |Links(names, names[n])| == 1 && Orphan(files, names[n], uid, now)
  }

  predicate OwnStage(names: map<Name, nat>, prefix: nat, file: nat, n: Name) {
    n.Stage? && n.prefix == prefix && n in names && names[n] == file
  }

  /** Unlinking abandoned names changes no other name's link count. */
  lemma OnlyLink(names: map<Name, nat>, gone: set<Name>, n: Name)
    requires n in names && n !in gone
    requires forall g | g in gone :: g in names && |Links(names, names[g])| == 1
    ensures Links(names - gone, names[n]) == Links(names, names[n])
  {
    forall g | g in gone && g in Links(names, names[n]) ensures g == n {
      assert |Links(names, names[n]) - {n}| == 0;
      assert Links(names, names[n]) - {n} == {};
    }
  }

  lemma SweepOne(was: map<Name, nat>, files: map<nat, Info>, done: seq<Name>, uid: nat, now: int, name: Name,
                 before: map<Name, nat>, after: map<Name, nat>)
    requires before == was - Abandoned(was, files, done, uid, now)
    requires after ==
      if name.Stage? && name in before && |Links(before, before[name])| == 1 && Orphan(files, before[name], uid, now)
      then before - {name} else before
    ensures after == was - Abandoned(was, files, done + [name], uid, now)
  {
    var gone := Abandoned(was, files, done, uid, now);
    assert forall n :: n in done + [name] <==> n in done || n == name;
    if name in was && name !in gone { OnlyLink(was, gone, name); }
    var sole := name.Stage? && name in was && |Links(was, was[name])| == 1 && Orphan(files, was[name], uid, now);
    assert Abandoned(was, files, done + [name], uid, now) == gone + (if sole then {name} else {});
  }

  lemma OneLinkLeft(was: map<Name, nat>, names: map<Name, nat>, prefix: nat, path: string, file: nat)
    requires Published(was, path, file)
    requires HasStage(was, prefix, file)
    requires forall n :: n in names <==> n in was && !OwnStage(was, prefix, file, n)
    requires forall n :: n in names ==> names[n] == was[n]
    ensures Links(names, file) == {Target(path)}
  {
    var stage :| stage in was && OwnStage(was, prefix, file, stage);
    var others := Links(was, file) - {Target(path)} - {stage};
    assert stage in Links(was, file) - {Target(path)};
    assert |others| == 0;
    assert others == {};
    assert Target(path) in names;
  }
}
