/** The gasless observer around its log scan: one pass from the durable cursor to the safe head, and runs of passes. */
module ObserverCursor {
  import opened Basics
  import opened LogScan

  /** What inspecting the one candidate transaction yields; `NotIncluded` is the inspection that returns null. */
  datatype Inspection = Settled | NotIncluded | IdentityMismatch | ReadFailed

  /** Everything one pass reads: the log provider, whether the previous end block is still canonical, the safe head,
      whether the locator is itself a transaction hash, the candidate's inspection, and whether the end block reads. */
  datatype Reads = Reads(
    provider: Provider, previousCanonical: bool, safe: Option<int>,
    locatorTransaction: bool, inspect: string -> Inspection, endBlockReads: bool)

  datatype Status = Pending | Unresolved | Ambiguous | NotFound | SafelySettled

  datatype Observation = Observation(status: Status, cursor: int)

  /** The transactions a pass must explain: the scanned transfers and whatever the locator resolves to. */
  function Candidates(w: Watch, r: Reads, scanned: Scanned): set<string> {
    scanned.transfers + scanned.located + (if w.locator.Some? && r.locatorTransaction then {w.locator.value} else {})
  }

  lemma OnlyOne(s: set<string>)
    requires |s| <= 1
    ensures forall x, y :: x in s && y in s ==> x == y
  {
    forall x, y | x in s && y in s ensures x == y {
      assert |s - {x}| == 0;
      assert s - {x} == {};
    }
  }

  function Conclude(w: Watch, r: Reads, cursor: int, scanned: Scanned): Observation {
    var byTransaction := w.locator.Some? && r.locatorTransaction;
    if (byTransaction && |scanned.located| == 1) || |scanned.located| > 1 then Observation(Ambiguous, cursor)
    else if |Candidates(w, r, scanned)| > 1 then Observation(Ambiguous, cursor)
    else if Candidates(w, r, scanned) == {} then Advance(r, cursor, scanned)
    else
      OnlyOne(Candidates(w, r, scanned));
      var candidate :| candidate in Candidates(w, r, scanned);
      match r.inspect(candidate)
      case Settled => Observation(SafelySettled, cursor)
      case NotIncluded => Advance(r, cursor, scanned)
      case IdentityMismatch => Observation(Ambiguous, cursor)
      case ReadFailed => Observation(Unresolved, cursor)
  }

  function Advance(r: Reads, cursor: int, scanned: Scanned): Observation {
    if r.safe != Some(scanned.end) && !r.endBlockReads then Observation(Unresolved, cursor)
    else Observation(NotFound, scanned.end + 1)
  }

  function ScannedBy(w: Watch, r: Reads, cursor: int): Option<Scanned> {
    if r.safe.None? then None else Outcome(r.provider, w, PassWindows(r.provider, w, cursor, r.safe.value))
  }

  /** `observeCoinbaseGasless` from a cursor. */
  function Observe(w: Watch, r: Reads, cursor: int): Observation {
    if !r.previousCanonical || r.safe.None? then Observation(Unresolved, cursor)
    else if r.safe.value < cursor then Observation(Pending, cursor)
    else
      var scanned := ScannedBy(w, r, cursor);
      if scanned.None? then Observation(Unresolved, cursor) else Conclude(w, r, cursor, scanned.value)
  }

  /** The durable cursor after a run of passes; a settled pass ends the run. */
  function CursorAfter(w: Watch, passes: seq<Reads>, cursor: int): int {
    if passes == [] then cursor
    else
      var seen := Observe(w, passes[0], cursor);
      if seen.status.SafelySettled? then seen.cursor else CursorAfter(w, passes[1..], seen.cursor)
  }

  // ---------------------------------------------------------------- one pass

  /** A pass moves the cursor only past a tiled range it read in full, and never beyond the safe head. */
  lemma PassAdvances(w: Watch, r: Reads, cursor: int) returns (windows: seq<Window>)
    ensures var seen := Observe(w, r, cursor);
      && cursor <= seen.cursor
      && (seen.cursor != cursor ==>
            && seen.status.NotFound? && r.safe.Some? && seen.cursor <= r.safe.value + 1
            && windows != [] && Tiles(r.provider, w, windows, cursor, seen.cursor - 1)
            && ScannedBy(w, r, cursor) == Outcome(r.provider, w, windows))
  {
    windows := if r.safe.Some? then PassWindows(r.provider, w, cursor, r.safe.value) else [];
    if r.safe.Some? && windows != [] {
      PassTiles(r.provider, w, cursor, r.safe.value);
      Moves(w, r, cursor, Outcome(r.provider, w, windows).value);
    }
  }

  lemma PassTiles(p: Provider, w: Watch, cursor: int, safe: int)
    ensures var windows := PassWindows(p, w, cursor, safe);
      windows != [] ==> Tiles(p, w, windows, cursor, EndOf(windows)) && cursor <= EndOf(windows) <= safe
  {
    CommittedTiles(p, w, safe, Place(cursor, LOG_WINDOW, 0));
    var windows := PassWindows(p, w, cursor, safe);
    if windows != [] { TilesGrow(p, w, windows, cursor, EndOf(windows)); }
  }

  /** The conclusion leaves the cursor alone or moves it just past the scanned range, and then says not found. */
  lemma Moves(w: Watch, r: Reads, cursor: int, scanned: Scanned)
    ensures var seen := Conclude(w, r, cursor, scanned);
      seen.cursor == cursor || (seen.status.NotFound? && seen.cursor == scanned.end + 1)
  {
  }

  /** An advancing pass without a candidate found that the range holds none. */
  lemma PassFindsNone(w: Watch, r: Reads, cursor: int, chain: set<Log>)
    requires Honest(r.provider, w, chain) && Observe(w, r, cursor).cursor != cursor
    requires Candidates(w, r, ScannedBy(w, r, cursor).value) == {}
    ensures MatchesIn(w, chain, Transfers(cursor, Observe(w, r, cursor).cursor - 1)) == {}
    ensures Located(w, chain, cursor, Observe(w, r, cursor).cursor - 1) == {}
  {
    var windows := PassAdvances(w, r, cursor);
    TilesFindAll(r.provider, w, chain, windows, cursor, Observe(w, r, cursor).cursor - 1);
    var scanned := ScannedBy(w, r, cursor).value;
    assert scanned.transfers == {} && scanned.located == {};
  }

  /** What a pass concludes about what it scanned: several candidates are never settled; a settlement or an advance
      names the one candidate it inspected, or found none. */
  lemma ConclusionMeaning(w: Watch, r: Reads, cursor: int, scanned: Scanned)
    ensures var seen, all := Conclude(w, r, cursor, scanned), Candidates(w, r, scanned);
      && (|all| > 1 ==> seen == Observation(Ambiguous, cursor))
      && (seen.status == SafelySettled ==> exists t :: all == {t} && r.inspect(t) == Settled)
      && (seen.status == NotFound ==> all == {} || exists t :: all == {t} && r.inspect(t) == NotIncluded)
  {
    var all := Candidates(w, r, scanned);
    if |all| == 1 {
      var t :| t in all;
      OnlyOne(all);
      assert all == {t};
    }
  }

  // ---------------------------------------------------------------- runs of passes

  /** Some pass of the run read this block in a window whose queries all succeeded. */
  ghost predicate BlockRead(w: Watch, passes: seq<Reads>, b: int) {
    exists i, v: Window :: 0 <= i < |passes| && ReadInFull(passes[i].provider, w, v) && v.from <= b <= v.to
  }

  lemma ReadByFirst(w: Watch, passes: seq<Reads>, windows: seq<Window>, start: int, end: int, b: int)
    requires passes != [] && Tiles(passes[0].provider, w, windows, start, end) && start <= b <= end
    ensures BlockRead(w, passes, b)
  {
    var v := TilesReadEveryBlock(passes[0].provider, w, windows, start, end, b);
  }

  lemma ReadByLater(w: Watch, passes: seq<Reads>, b: int)
    requires passes != [] && BlockRead(w, passes[1..], b)
    ensures BlockRead(w, passes, b)
  {
    var i, v: Window :| 0 <= i < |passes[1..]| && ReadInFull(passes[1..][i].provider, w, v) && v.from <= b <= v.to;
    assert passes[1..][i] == passes[i + 1];
  }

  lemma ReadByEither(w: Watch, passes: seq<Reads>, windows: seq<Window>, start: int, next: int, b: int)
    requires passes != [] && (next != start ==> Tiles(passes[0].provider, w, windows, start, next - 1))
    requires start <= b && (next <= b ==> BlockRead(w, passes[1..], b))
    ensures BlockRead(w, passes, b)
  {
    if b < next { ReadByFirst(w, passes, windows, start, next - 1, b); } else { ReadByLater(w, passes, b); }
  }

  /** Over any run, whatever is found, refused or re-read, the cursor only grows and never passes an unread block. */
  lemma {:induction false} CursorNeverSkipsUnreadBlock(w: Watch, passes: seq<Reads>, cursor: int, b: int)
    ensures cursor <= CursorAfter(w, passes, cursor)
    ensures cursor <= b < CursorAfter(w, passes, cursor) ==> BlockRead(w, passes, b)
    decreases |passes|
  {
    if passes != [] {
      var windows := PassAdvances(w, passes[0], cursor);
      var next := Observe(w, passes[0], cursor).cursor;
      CursorNeverSkipsUnreadBlock(w, passes[1..], next, b);
      if cursor <= b < CursorAfter(w, passes, cursor) { ReadByEither(w, passes, windows, cursor, next, b); }
    }
  }

  /** No pass of the run meets a candidate. */
  predicate CandidateFree(w: Watch, passes: seq<Reads>, cursor: int) {
    passes == [] ||
    (var scanned := ScannedBy(w, passes[0], cursor);
     && (scanned.Some? ==> Candidates(w, passes[0], scanned.value) == {})
     && CandidateFree(w, passes[1..], Observe(w, passes[0], cursor).cursor))
  }

  /** Over candidate-free passes against honest providers, nothing sought lies between the first cursor and the last. */
  lemma {:induction false} NothingSkipped(w: Watch, passes: seq<Reads>, cursor: int, chain: set<Log>, l: Log)
    requires forall i :: 0 <= i < |passes| ==> Honest(passes[i].provider, w, chain)
    requires CandidateFree(w, passes, cursor) && l in chain && cursor <= l.block < CursorAfter(w, passes, cursor)
    ensures !(Fits(w, Transfers(l.block, l.block), l) && l.amount == w.amount)
    ensures !Fits(w, UserOperations(l.block, l.block), l)
    decreases |passes|
  {
    if passes != [] {
      var seen := Observe(w, passes[0], cursor);
      if l.block < seen.cursor {
        PassFindsNone(w, passes[0], cursor, chain);
        MatchedInRange(w, chain, cursor, seen.cursor - 1, l);
      } else {
        NothingSkipped(w, passes[1..], seen.cursor, chain, l);
      }
    }
  }

  lemma MatchedInRange(w: Watch, chain: set<Log>, from: int, to: int, l: Log)
    requires l in chain && from <= l.block <= to
    ensures Fits(w, Transfers(l.block, l.block), l) && l.amount == w.amount ==>
      l.tx in MatchesIn(w, chain, Transfers(from, to))
    ensures Fits(w, UserOperations(l.block, l.block), l) ==> l.tx in Located(w, chain, from, to)
  {
  }

  // ---------------------------------------------------------------- exactly when a log is passed over

  /** The owner's exact transfer, or the user operation behind the locator. */
  predicate Sought(w: Watch, l: Log) {
    (Fits(w, Transfers(l.block, l.block), l) && l.amount == w.amount) || Fits(w, UserOperations(l.block, l.block), l)
  }

  /** One of the chain's sought logs lies from the first cursor to before the second. */
  ghost predicate PassedOver(w: Watch, chain: set<Log>, from: int, next: int) {
    exists l :: l in chain && Sought(w, l) && from <= l.block < next
  }

  /** The pass reads to its end, its one candidate comes from the scan, and inspecting that candidate returns null. */
  ghost predicate DropsItsCandidate(w: Watch, r: Reads, cursor: int) {
    && r.previousCanonical && r.safe.Some? && cursor <= r.safe.value && ScannedBy(w, r, cursor).Some?
    && var scanned := ScannedBy(w, r, cursor).value;
       && scanned.transfers + scanned.located != {}
       && !(w.locator.Some? && r.locatorTransaction && |scanned.located| == 1)
       && (exists t :: Candidates(w, r, scanned) == {t} && r.inspect(t) == NotIncluded)
       && (r.safe == Some(scanned.end) || r.endBlockReads)
  }

  /** A conclusion moves the cursor over scanned candidates exactly when it drops the only one. */
  lemma ConclusionDrops(w: Watch, r: Reads, cursor: int, scanned: Scanned)
    requires scanned.transfers + scanned.located != {} && cursor <= scanned.end
    ensures Conclude(w, r, cursor, scanned).cursor != cursor <==>
      && !(w.locator.Some? && r.locatorTransaction && |scanned.located| == 1)
      && (exists t :: Candidates(w, r, scanned) == {t} && r.inspect(t) == NotIncluded)
      && (r.safe == Some(scanned.end) || r.endBlockReads)
  {
    var all := Candidates(w, r, scanned);
    assert scanned.located <= all && scanned.transfers <= all;
    if |scanned.located| > 1 { MoreThanOne(scanned.located, all); }
    ConclusionMeaning(w, r, cursor, scanned);
  }

  lemma MoreThanOne(small: set<string>, all: set<string>)
    requires small <= all && |small| > 1
    ensures forall t :: all != {t}
  {
    var x :| x in small;
    assert |small - {x}| > 0;
    var y :| y in small - {x};
    assert x in all && y in all && x != y;
  }

  /** What a tiled range's scan holds is empty exactly when no sought log lies in the range. */
  lemma ScanHoldsSought(w: Watch, chain: set<Log>, from: int, to: int)
    ensures MatchesIn(w, chain, Transfers(from, to)) + Located(w, chain, from, to) != {} <==>
      PassedOver(w, chain, from, to + 1)
  {
    if t :| t in MatchesIn(w, chain, Transfers(from, to)) {
      var l :| l in chain && Fits(w, Transfers(from, to), l) && l.amount == w.amount && l.tx == t;
      assert Sought(w, l);
    } else if t :| t in Located(w, chain, from, to) {
      var l :| l in chain && Fits(w, UserOperations(from, to), l) && l.tx == t;
      assert Sought(w, l);
    }
    if PassedOver(w, chain, from, to + 1) {
      var l :| l in chain && Sought(w, l) && from <= l.block < to + 1;
      MatchedInRange(w, chain, from, to, l);
    }
  }

  /** One pass against an honest provider moves past a sought log if and only if it drops its one candidate: several
      candidates, a mismatch and a failed read all leave the cursor where it was. */
  lemma PassSkipsIff(w: Watch, r: Reads, cursor: int, chain: set<Log>)
    requires Honest(r.provider, w, chain)
    ensures PassedOver(w, chain, cursor, Observe(w, r, cursor).cursor) <==> DropsItsCandidate(w, r, cursor)
  {
    var scan := ScannedBy(w, r, cursor);
    if r.previousCanonical && r.safe.Some? && cursor <= r.safe.value && scan.Some? {
      var windows := PassWindows(r.provider, w, cursor, r.safe.value);
      PassTiles(r.provider, w, cursor, r.safe.value);
      TilesFindAll(r.provider, w, chain, windows, cursor, EndOf(windows));
      ScanHoldsSought(w, chain, cursor, EndOf(windows));
      Moves(w, r, cursor, scan.value);
      if scan.value.transfers + scan.value.located != {} { ConclusionDrops(w, r, cursor, scan.value); }
    }
  }

  /** Some pass of the run drops its candidate. */
  ghost predicate RunDropsCandidate(w: Watch, passes: seq<Reads>, cursor: int)
    decreases |passes|
  {
    && passes != []
    && var seen := Observe(w, passes[0], cursor);
       DropsItsCandidate(w, passes[0], cursor)
         || (!seen.status.SafelySettled? && RunDropsCandidate(w, passes[1..], seen.cursor))
  }

  lemma PassedOverSplit(w: Watch, chain: set<Log>, from: int, mid: int, next: int)
    requires from <= mid <= next
    ensures PassedOver(w, chain, from, next) <==> PassedOver(w, chain, from, mid) || PassedOver(w, chain, mid, next)
  {
  }

  /** Over every run of passes, whatever they find, sought logs lie behind the cursor if and only if some pass dropped
      its one candidate. */
  lemma {:induction false} RunSkipsIff(w: Watch, passes: seq<Reads>, cursor: int, chain: set<Log>)
    requires forall i :: 0 <= i < |passes| ==> Honest(passes[i].provider, w, chain)
    ensures PassedOver(w, chain, cursor, CursorAfter(w, passes, cursor)) <==> RunDropsCandidate(w, passes, cursor)
    decreases |passes|
  {
    if passes != [] {
      var seen := Observe(w, passes[0], cursor);
      var _ := PassAdvances(w, passes[0], cursor);
      PassSkipsIff(w, passes[0], cursor, chain);
      if !seen.status.SafelySettled? {
        RunSkipsIff(w, passes[1..], seen.cursor, chain);
        CursorNeverSkipsUnreadBlock(w, passes[1..], seen.cursor, seen.cursor);
        PassedOverSplit(w, chain, cursor, seen.cursor, CursorAfter(w, passes, cursor));
      }
    }
  }

  // ---------------------------------------------------------------- a candidate can be passed over

  const SAMPLE_WATCH := Watch("usdc", "entry", "me", "you", 5, None)
  const SAMPLE_LOG := Log("usdc", [TRANSFER_TOPIC, "me", "you"], 10, 5, "tx")
  const SAMPLE_PROVIDER :=
    Provider((n: nat, q: Query) => if q.Transfers? && q.from <= 10 <= q.to then Rows([SAMPLE_LOG]) else Rows([]))
  const SAMPLE_READS := Reads(SAMPLE_PROVIDER, true, Some(20), false, (t: string) => NotIncluded, true)

  lemma SampleOutcome()
    ensures Outcome(SAMPLE_PROVIDER, SAMPLE_WATCH, PassWindows(SAMPLE_PROVIDER, SAMPLE_WATCH, 10, 20)) ==
      Some(Scanned(20, {}, {"tx"}))
  {
    var p, w, v := SAMPLE_PROVIDER, SAMPLE_WATCH, Window(10, 20, 0);
    assert SAMPLE_LOG in [SAMPLE_LOG];
    assert TransfersIn(p, w, v) == Ok({"tx"}) by { assert CandidatesIn(w, Transfers(10, 20), [SAMPLE_LOG]) == {"tx"}; }
    assert WindowAt(20, Place(10, LOG_WINDOW, 0)) == v;
    OutcomeCons(p, w, v, []);
    assert [v] + [] == [v];
  }

  /** A candidate whose inspection returns null moves the cursor past the block that holds the transfer. */
  lemma NullInspectionSkipsItsBlock()
    ensures Honest(SAMPLE_PROVIDER, SAMPLE_WATCH, {SAMPLE_LOG})
    ensures Fits(SAMPLE_WATCH, Transfers(10, 10), SAMPLE_LOG) && SAMPLE_LOG.amount == SAMPLE_WATCH.amount
    ensures Observe(SAMPLE_WATCH, SAMPLE_READS, 10) == Observation(NotFound, 21)
  {
    SampleOutcome();
    assert Candidates(SAMPLE_WATCH, SAMPLE_READS, Scanned(20, {}, {"tx"})) == {"tx"};
  }
}
