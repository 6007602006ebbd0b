/** That the store makes progress: writers publish, interrupted stages are swept and interrupted links repaired. */
module AtomicMeaning {
  import opened Basics
  import opened AtomicFiles
  import opened AtomicDirectory

  // ---------------------------------------------------------------- a writer that is not interrupted

  /** A complete write makes the stage ready to publish; a partial one shows nowhere and leaves it being written. */
  lemma WriteMeaning(prefix: string -> nat, s: World, w: nat, length: nat)
    requires w in s.writers && s.writers[w].phase == Writing && length <= |s.writers[w].bytes|
    ensures var t := Next(prefix, s, Write(w, length));
      && t.names == s.names && t.writers.Keys == s.writers.Keys
      && t.writers[w].content == s.writers[w].bytes[..length]
      && (t.writers[w].phase == Filled <==> length == |s.writers[w].bytes|)
      && (length < |s.writers[w].bytes| ==> t.writers[w].phase == Writing)
  {
  }

  /** Opened under a fresh staged name and written in full, a replacing writer publishes its bytes by one rename, and
      leaves no stage. */
  lemma ReplacingWriterPublishes(prefix: string -> nat, s: World, w: nat, target: string, bytes: Bytes, nonce: nat)
    requires s.readings != [] && w !in s.writers && Stage(prefix(target), nonce) !in s.used
    ensures var stage := Stage(prefix(target), nonce);
      var t := Next(prefix, Next(prefix, Next(prefix, s, Open(w, target, bytes, false, nonce)), Write(w, |bytes|)),
                    Rename(w));
      Content(t, target) == Some(bytes) && stage !in t.names
  {
    var opened' := Next(prefix, s, Open(w, target, bytes, false, nonce));
    var filled := Next(prefix, opened', Write(w, |bytes|));
    assert bytes[..|bytes|] == bytes;
    assert w in filled.writers && filled.writers[w].phase == Filled;
  }

  /** A create-only writer publishes its bytes by one link where the target is free, keeps what is there where it is
      not, and in the end leaves no stage. */
  lemma CreatingWriterPublishes(prefix: string -> nat, s: World, w: nat, target: string, bytes: Bytes, nonce: nat)
    requires s.readings != [] && w !in s.writers && Stage(prefix(target), nonce) !in s.used
    ensures var stage := Stage(prefix(target), nonce);
      var linked := Next(prefix, Next(prefix, Next(prefix, s, Open(w, target, bytes, true, nonce)), Write(w, |bytes|)),
                         Link(w));
      && stage in linked.names && linked.names[stage] == w
      && (if Target(target) in s.names then
            Target(target) in linked.names && linked.names[Target(target)] == s.names[Target(target)]
          else Content(linked, target) == Some(bytes))
      && Next(prefix, linked, Close(w)).names == linked.names - {stage}
  {
    var opened' := Next(prefix, s, Open(w, target, bytes, true, nonce));
    var filled := Next(prefix, opened', Write(w, |bytes|));
    assert bytes[..|bytes|] == bytes;
    assert w in filled.writers && filled.writers[w].phase == Filled;
  }

  // ---------------------------------------------------------------- an interrupted one

  /** A sweep marks a staged name exactly when it is its file's only link and the clock reads at least ten minutes more
      than when the file was last written. */
  lemma SweepMarks(prefix: string -> nat, s: World, name: Name)
    requires Inv(s) && name !in s.doomed
    ensures name in Next(prefix, s, SweepLook(name)).doomed <==>
      && name.Stage? && name in s.names && Links(s.names, s.names[name]) == {name}
      && s.names[name] in s.writers && s.writers[s.names[name]].touched < |s.readings|
      && s.readings[|s.readings| - 1] - s.readings[s.writers[s.names[name]].touched] >= 10 * 60 * 1000
  {
    if name in s.names {
      assert NamedRight(s, name) && WriterRight(s, s.names[name]);
      OnlyName(s.names, name);
    }
  }

  lemma OnlyName(names: map<Name, nat>, name: Name)
    requires name in names
    ensures |Links(names, names[name])| == 1 <==> Links(names, names[name]) == {name}
  {
    var links := Links(names, names[name]);
    if |links| == 1 {
      assert |links - {name}| == 0;
      assert links - {name} == {};
    }
  }

  /** What a killed writer left before publishing is gone once ten minutes have passed and a sweep came by, and no
      target has changed. */
  lemma InterruptedStageIsSwept(prefix: string -> nat, s: World, w: nat, reading: int)
    requires Inv(s) && w in s.writers && s.writers[w].phase in {Writing, Filled}
    requires s.writers[w].stage in s.names && s.writers[w].touched < |s.readings|
    requires reading - s.readings[s.writers[w].touched] >= 10 * 60 * 1000
    ensures var stage := s.writers[w].stage;
      var t := Next(prefix, Next(prefix, Next(prefix, s, SetClock(reading)), SweepLook(stage)), SweepUnlink(stage));
      t.names == s.names - {stage}
  {
    var stage, later := s.writers[w].stage, Next(prefix, s, SetClock(reading));
    assert NamedRight(s, stage) && WriterRight(s, w) && WriterRight(s, s.names[stage]);
    assert s.names[stage] == w;
    StageIsOnlyLink(s, w);
    ClockKeeps(prefix, s, SetClock(reading));
    if stage !in s.doomed { SweepMarks(prefix, later, stage); }
  }

  lemma StageIsOnlyLink(s: World, w: nat)
    requires Inv(s) && w in s.writers && s.writers[w].phase in {Writing, Filled}
    requires s.writers[w].stage in s.names && s.names[s.writers[w].stage] == w
    ensures Links(s.names, w) == {s.writers[w].stage}
  {
    LinksOfAFile(s, w);
    assert NamedRight(s, Target(s.writers[w].target));
  }

  /** What a writer killed between link and unlink left is repaired: the target keeps its complete bytes and is its
      file's one link again. */
  lemma InterruptedLinkIsRepaired(prefix: string -> nat, s: World, w: nat, r: nat)
    requires Inv(s) && w in s.writers && r !in s.releases
    requires s.writers[w].stage in s.names && Target(s.writers[w].target) in s.names
      && s.names[Target(s.writers[w].target)] == w
    requires s.writers[w].stage.Stage? && s.writers[w].stage.prefix == prefix(s.writers[w].target)
    ensures var x := s.writers[w];
      var begun := Next(prefix, s, ReleaseBegin(r, x.target));
      var t := Next(prefix, Next(prefix, begun, ReleaseLook(r, x.stage)), ReleaseUnlink(r));
      && Links(t.names, w) == {Target(x.target)} && Content(t, x.target) == Some(x.bytes)
      && Content(t, x.target) == Content(s, x.target) && r in t.releases && t.releases[r].released
  {
    var x := s.writers[w];
    assert NamedRight(s, Target(x.target)) && NamedRight(s, x.stage) && WriterRight(s, w);
    assert WriterRight(s, s.names[x.stage]);
    assert s.names[x.stage] == w;
    LinksOfAFile(s, w);
    TwoLinks(s.names, w, Target(x.target), x.stage);
  }

  lemma TwoLinks(names: map<Name, nat>, file: nat, target: Name, stage: Name)
    requires target in names && stage in names && names[target] == names[stage] == file && target != stage
    requires Links(names, file) <= {target, stage}
    ensures |Links(names, file)| == 2 && Links(names - {stage}, file) == {target}
  {
    assert target in Links(names, file) && stage in Links(names, file);
    assert Links(names, file) == {target, stage};
    var left := names - {stage};
    assert forall n :: n in Links(left, file) <==> n in Links(names, file) && n != stage;
    assert Links(left, file) == {target, stage} - {stage};
  }

  /** A repair also succeeds when the stage's own writer was faster: the target is the file it saw, and its stage is
      gone. */
  lemma FinishedElsewhereSucceeds(s: World, r: nat)
    requires Inv(s) && r in s.releases
    requires var x := s.releases[r];
      Target(x.target) in s.names && s.names[Target(x.target)] == x.file
      && x.file in s.writers && s.writers[x.file].stage !in s.names
    ensures Succeeded(s, s.releases[r])
  {
    var x := s.releases[r];
    assert ReleaseRight(s, r) && NamedRight(s, Target(x.target));
    LinksOfAFile(s, x.file);
    assert Links(s.names, x.file) == {Target(x.target)};
  }

  // ---------------------------------------------------------------- what a listing unlinks

  /** A listing unlinks a staged name exactly when it is the only link of a regular file of this user that was last
      written at least ten minutes ago. */
  lemma AbandonedMeaning(names: map<Name, nat>, files: map<nat, Info>, listing: seq<Name>, uid: nat, now: int, n: Name)
    ensures n in Abandoned(names, files, listing, uid, now) <==>
      && n in listing && n.Stage? && n in names && Links(names, names[n]) == {n} && names[n] in files
      && files[names[n]].isFile && files[names[n]].uid == uid && files[names[n]].touched + 10 * 60 * 1000 <= now
  {
    if n in names { OnlyName(names, n); }
  }

  /** It lists every record, in order, and no staged name: one entry at a time. */
  lemma RecordsOfOne(n: Name)
    ensures Records([n]) == if n.Target? then [n] else []
  {
    var listing := [n];
    assert listing[..|listing| - 1] == [] && Records([]) == [];
  }

  lemma {:induction false} RecordsJoin(a: seq<Name>, b: seq<Name>)
    ensures Records(a + b) == Records(a) + Records(b)
    decreases |b|
  {
    if b == [] {
      assert a + b == a && Records(b) == [];
    } else {
      var init, all := b[..|b| - 1], a + b;
      RecordsJoin(a, init);
      assert all[..|all| - 1] == a + init && all[|all| - 1] == b[|b| - 1];
    }
  }
}
