/** What each observation means, over what the pass read. */
module ObserverMeaning {
  import opened Basics
  import opened LogScan
  import opened ObserverCursor

  // ---------------------------------------------------------------- what there is to explain

  /** A transaction the pass has to explain: it moved the exact amount, carries the locator's user operation, or is the
      locator itself. */
  predicate ToExplain(w: Watch, r: Reads, s: Scanned, t: string) {
    t in s.transfers || t in s.located || (r.locatorTransaction && w.locator == Some(t))
  }

  predicate Nothing(w: Watch, r: Reads, s: Scanned) {
    s.transfers == {} && s.located == {} && !(r.locatorTransaction && w.locator.Some?)
  }

  ghost predicate Only(w: Watch, r: Reads, s: Scanned, t: string) {
    ToExplain(w, r, s, t) && forall u :: ToExplain(w, r, s, u) ==> u == t
  }

  ghost predicate Several(w: Watch, r: Reads, s: Scanned) {
    exists t, u :: t != u && ToExplain(w, r, s, t) && ToExplain(w, r, s, u)
  }

  /** The locator is both a transaction and a user operation's, or the user operation of several transactions. */
  ghost predicate LocatorAmbiguous(w: Watch, r: Reads, s: Scanned) {
    (r.locatorTransaction && w.locator.Some? && s.located != {})
    || exists t, u :: t != u && t in s.located && u in s.located
  }

  lemma CountsTwo(all: set<string>)
    ensures |all| > 1 <==> exists t, u :: t != u && t in all && u in all
    ensures |all| == 1 <==> exists t :: all == {t}
  {
    if |all| > 1 {
      var t :| t in all;
      assert |all - {t}| > 0;
      var u :| u in all - {t};
    } else {
      OnlyOne(all);
      if |all| == 1 {
        var t :| t in all;
        assert all == {t};
      }
    }
  }

  lemma IsSingle(all: set<string>, t: string)
    ensures all == {t} <==> t in all && forall u :: u in all ==> u == t
  {
    if t in all && forall u :: u in all ==> u == t { assert all - {t} == {}; }
  }

  lemma CandidatesAre(w: Watch, r: Reads, s: Scanned)
    ensures forall t :: t in Candidates(w, r, s) <==> ToExplain(w, r, s, t)
    ensures Candidates(w, r, s) == {} <==> Nothing(w, r, s)
  {
    var all := Candidates(w, r, s);
    if all == {} { assert s.transfers <= all && s.located <= all; }
  }

  lemma CandidatesExplain(w: Watch, r: Reads, s: Scanned)
    ensures Candidates(w, r, s) == {} <==> Nothing(w, r, s)
    ensures |Candidates(w, r, s)| > 1 <==> Several(w, r, s)
    ensures forall t :: Candidates(w, r, s) == {t} <==> Only(w, r, s, t)
    ensures (w.locator.Some? && r.locatorTransaction && |s.located| == 1) || |s.located| > 1 <==>
      LocatorAmbiguous(w, r, s)
  {
    var all := Candidates(w, r, s);
    CandidatesAre(w, r, s);
    CountsTwo(all);
    CountsTwo(s.located);
    forall t ensures all == {t} <==> Only(w, r, s, t) { IsSingle(all, t); }
  }

  // ---------------------------------------------------------------- what is concluded

  /** The end of the scanned range is the safe head, or its block could be read. */
  predicate EndKnown(r: Reads, s: Scanned) { r.safe == Some(s.end) || r.endBlockReads }

  /** The one transaction to explain was inspected to this. */
  ghost predicate Inspected(w: Watch, r: Reads, s: Scanned, to: Inspection) {
    exists t :: Only(w, r, s, t) && r.inspect(t) == to
  }

  /** What a scan is concluded to, in both directions for every status. */
  lemma ConcludedMeaning(w: Watch, r: Reads, cursor: int, s: Scanned)
    ensures var seen, quiet := Conclude(w, r, cursor, s), Nothing(w, r, s) || Inspected(w, r, s, NotIncluded);
      && (seen.status == SafelySettled <==> !LocatorAmbiguous(w, r, s) && Inspected(w, r, s, Settled))
      && (seen.status == Ambiguous <==>
            LocatorAmbiguous(w, r, s) || Several(w, r, s) || Inspected(w, r, s, IdentityMismatch))
      && (seen.status == NotFound <==> !LocatorAmbiguous(w, r, s) && quiet && EndKnown(r, s))
      && (seen.status == Unresolved <==>
            !LocatorAmbiguous(w, r, s) && (Inspected(w, r, s, ReadFailed) || (quiet && !EndKnown(r, s))))
      && seen.status != Pending && seen.cursor == (if seen.status == NotFound then s.end + 1 else cursor)
  {
    var all := Candidates(w, r, s);
    CandidatesExplain(w, r, s);
    CountsTwo(all);
    if !LocatorAmbiguous(w, r, s) && |all| == 1 {
      var t :| all == {t};
      OneIsConcluded(w, r, cursor, s, t);
    }
  }

  lemma OneIsConcluded(w: Watch, r: Reads, cursor: int, s: Scanned, t: string)
    requires Only(w, r, s, t) && !LocatorAmbiguous(w, r, s)
    ensures Conclude(w, r, cursor, s) ==
      match r.inspect(t)
      case Settled => Observation(SafelySettled, cursor)
      case IdentityMismatch => Observation(Ambiguous, cursor)
      case ReadFailed => Observation(Unresolved, cursor)
      case NotIncluded => if EndKnown(r, s) then Observation(NotFound, s.end + 1) else Observation(Unresolved, cursor)
    ensures forall to :: Inspected(w, r, s, to) <==> r.inspect(t) == to
    ensures !Several(w, r, s) && !Nothing(w, r, s)
  {
    CandidatesExplain(w, r, s);
    assert Candidates(w, r, s) == {t};
  }

  /** The pass came through to a scan: the previous end block is still canonical, the safe head is at or past the
      cursor, and a window could be read. */
  predicate CameThrough(w: Watch, r: Reads, cursor: int) {
    r.previousCanonical && r.safe.Some? && cursor <= r.safe.value
    && PassWindows(r.provider, w, cursor, r.safe.value) != []
  }

  /** Every status of a pass, if and only if over what it read. */
  lemma ObserveMeaning(w: Watch, r: Reads, cursor: int)
    ensures var seen, through := Observe(w, r, cursor), CameThrough(w, r, cursor);
      && (through ==> ScannedBy(w, r, cursor).Some?)
      && var s := if through then ScannedBy(w, r, cursor).value else Scanned(cursor, {}, {});
         var clear, quiet := through && !LocatorAmbiguous(w, r, s), Nothing(w, r, s) || Inspected(w, r, s, NotIncluded);
         && (seen.status == SafelySettled <==> clear && Inspected(w, r, s, Settled))
         && (seen.status == Ambiguous <==>
               through && (LocatorAmbiguous(w, r, s) || Several(w, r, s) || Inspected(w, r, s, IdentityMismatch)))
         && (seen.status == Pending <==> r.previousCanonical && r.safe.Some? && r.safe.value < cursor)
         && (seen.status == NotFound <==> clear && quiet && EndKnown(r, s))
         && (seen.status == Unresolved <==>
               || !r.previousCanonical || r.safe.None? || (cursor <= r.safe.value && !through)
               || (clear && (Inspected(w, r, s, ReadFailed) || (quiet && !EndKnown(r, s)))))
         && seen.cursor == (if seen.status == NotFound then s.end + 1 else cursor)
  {
    if CameThrough(w, r, cursor) { ConcludedMeaning(w, r, cursor, ScannedBy(w, r, cursor).value); }
  }
}
