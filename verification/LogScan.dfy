/** The gasless observer's log scan: windows that halve on a range refusal, a query budget, and a resumable cursor. */
module LogScan {
  import opened Basics

  const LOG_WINDOW: nat := 2000
  const MAX_QUERIES: nat := 24
  const TRANSFER_TOPIC := "0xddf252ad1be2c89b69c2b068fc378daa952ba7f163c4a11628f55a4df523b3ef"
  const USER_OPERATION_EVENT := "0x49628fd1471006c1482da88028e9ce4dbb080b815c9b0344d39e5a8e6ec1419f"

  datatype Log = Log(contract: string, topics: seq<string>, block: int, amount: nat, tx: string)

  /** What is looked for: this sender's exact transfer, and its user operation when a locator hash is known. */
  datatype Watch = Watch(token: string, entryPoint: string, sender: string, recipient: string, amount: nat,
                         locator: Option<string>)

  datatype Query = UserOperations(from: int, to: int) | Transfers(from: int, to: int)

  /** A refusal carries the log helper's error code. */
  datatype Answer = Rows(rows: seq<Log>) | Refused(code: ErrorCode)

  /** What a log provider answers to the n-th query of a pass; it may answer differently every time. */
  datatype Provider = Provider(answer: (nat, Query) -> Answer)

  // ---------------------------------------------------------------- one query

  predicate Fits(w: Watch, q: Query, l: Log) {
    && q.from <= l.block <= q.to
    && match q
       case UserOperations(_, _) =>
         && w.locator.Some? && l.contract == w.entryPoint && |l.topics| == 4
         && l.topics[0] == USER_OPERATION_EVENT && l.topics[1] == w.locator.value && l.topics[2] == w.sender
       case Transfers(_, _) => l.contract == w.token && l.topics == [TRANSFER_TOPIC, w.sender, w.recipient]
  }

  /** A user operation log always is a candidate, a transfer only of the exact amount. */
  predicate Candidate(w: Watch, q: Query, l: Log) { q.UserOperations? || l.amount == w.amount }

  function CandidatesIn(w: Watch, q: Query, rows: seq<Log>): set<string> {
    set l | l in rows && Candidate(w, q, l) :: l.tx
  }

  function Read(p: Provider, w: Watch, n: nat, q: Query): Result<set<string>> {
    match p.answer(n, q)
    case Refused(code) => Err(code)
    case Rows(rows) =>
      if forall l :: l in rows ==> Fits(w, q, l) then Ok(CandidatesIn(w, q, rows)) else Err(RpcProtocol)
  }

  /** `scanUserOperation` and `scanTransfers`: every returned row must match the filter that was asked. */
  method Scan(p: Provider, w: Watch, n: nat, q: Query) returns (r: Result<set<string>>)
    ensures r == Read(p, w, n, q)
  {
    var answer := p.answer(n, q);
    if answer.Refused? { return Err(answer.code); }
    var candidates: set<string> := {};
    for i := 0 to |answer.rows|
      invariant forall l :: l in answer.rows[..i] ==> Fits(w, q, l)
      invariant candidates == CandidatesIn(w, q, answer.rows[..i])
    {
      var log := answer.rows[i];
      if !Fits(w, q, log) {
        assert log in answer.rows;
        return Err(RpcProtocol);
      }
      assert answer.rows[..i + 1] == answer.rows[..i] + [log];
      if Candidate(w, q, log) { candidates := candidates + {log.tx}; }
    }
    assert answer.rows[..|answer.rows|] == answer.rows;
    return Ok(candidates);
  }

  // ---------------------------------------------------------------- one window

  /** A range read in full; `first` is the number of its first query in the pass. */
  datatype Window = Window(from: int, to: int, first: nat)

  function Cost(w: Watch): nat { if w.locator.None? then 1 else 2 }

  function LocatedIn(p: Provider, w: Watch, v: Window): Result<set<string>> {
    if w.locator.None? then Ok({}) else Read(p, w, v.first, UserOperations(v.from, v.to))
  }

  function TransfersIn(p: Provider, w: Watch, v: Window): Result<set<string>> {
    Read(p, w, v.first + Cost(w) - 1, Transfers(v.from, v.to))
  }

  predicate ReadInFull(p: Provider, w: Watch, v: Window) { LocatedIn(p, w, v).Ok? && TransfersIn(p, w, v).Ok? }

  function Refusal(p: Provider, w: Watch, v: Window): ErrorCode
    requires !ReadInFull(p, w, v)
  {
    if LocatedIn(p, w, v).Err? then LocatedIn(p, w, v).error else TransfersIn(p, w, v).error
  }

  /** A window whose first query is refused never sends its second. */
  function Spent(p: Provider, w: Watch, v: Window): nat { if LocatedIn(p, w, v).Err? then 1 else Cost(w) }

  predicate Empty(p: Provider, w: Watch, v: Window) {
    LocatedIn(p, w, v) == Ok({}) && TransfersIn(p, w, v) == Ok({})
  }

  function End(safeEnd: int, from: int, window: nat): int {
    if safeEnd < from + window - 1 then safeEnd else from + window - 1
  }

  // ---------------------------------------------------------------- one pass

  /** Where a pass stands: the next block, the window size, and the queries spent. */
  datatype Place = Place(from: int, window: nat, queries: nat)

  predicate Continues(w: Watch, safeEnd: int, at: Place) { at.from <= safeEnd && at.queries + Cost(w) <= MAX_QUERIES }

  function WindowAt(safeEnd: int, at: Place): Window { Window(at.from, End(safeEnd, at.from, at.window), at.queries) }

  /** The windows a pass commits, in order. */
  function Committed(p: Provider, w: Watch, safeEnd: int, at: Place): seq<Window>
    decreases MAX_QUERIES - at.queries
  {
    if !Continues(w, safeEnd, at) then []
    else
      var v := WindowAt(safeEnd, at);
      if ReadInFull(p, w, v) then
        [v] + if Empty(p, w, v) then Committed(p, w, safeEnd, Place(v.to + 1, at.window, at.queries + Cost(w))) else []
      else if Refusal(p, w, v) == RpcAmbiguous && at.window > 1 then
        Committed(p, w, safeEnd, Place(at.from, at.window / 2, at.queries + Spent(p, w, v)))
      else []
  }

  /** A pass starts at the cursor with full windows and an unspent budget. */
  function PassWindows(p: Provider, w: Watch, start: int, safeEnd: int): seq<Window> {
    Committed(p, w, safeEnd, Place(start, LOG_WINDOW, 0))
  }

  function Found(r: Result<set<string>>): set<string> { if r.Ok? then r.value else {} }

  function AllLocated(p: Provider, w: Watch, windows: seq<Window>): set<string> {
    if windows == [] then {} else Found(LocatedIn(p, w, windows[0])) + AllLocated(p, w, windows[1..])
  }

  function AllTransfers(p: Provider, w: Watch, windows: seq<Window>): set<string> {
    if windows == [] then {} else Found(TransfersIn(p, w, windows[0])) + AllTransfers(p, w, windows[1..])
  }

  /** The windows cover [start, end] with no gap and no overlap, each at most 2,000 blocks and read in full. */
  predicate Tiles(p: Provider, w: Watch, windows: seq<Window>, start: int, end: int) {
    if windows == [] then start == end + 1
    else
      && windows[0].from == start && start <= windows[0].to <= end && windows[0].to < start + LOG_WINDOW
      && ReadInFull(p, w, windows[0])
      && Tiles(p, w, windows[1..], windows[0].to + 1, end)
  }

  function EndOf(windows: seq<Window>): int
    requires windows != []
  {
    windows[|windows| - 1].to
  }

  lemma {:induction false} CommittedTiles(p: Provider, w: Watch, safeEnd: int, at: Place)
    requires 1 <= at.window <= LOG_WINDOW
    ensures var windows := Committed(p, w, safeEnd, at);
      windows != [] ==> EndOf(windows) <= safeEnd && Tiles(p, w, windows, at.from, EndOf(windows))
    decreases MAX_QUERIES - at.queries
  {
    if Continues(w, safeEnd, at) {
      var v := WindowAt(safeEnd, at);
      if ReadInFull(p, w, v) {
        var next := Place(v.to + 1, at.window, at.queries + Cost(w));
        if Empty(p, w, v) {
          CommittedTiles(p, w, safeEnd, next);
          TilesCons(p, w, v, Committed(p, w, safeEnd, next));
        } else {
          TilesCons(p, w, v, []);
        }
      } else if Refusal(p, w, v) == RpcAmbiguous && at.window > 1 {
        CommittedTiles(p, w, safeEnd, Place(at.from, at.window / 2, at.queries + Spent(p, w, v)));
      }
    }
  }

  lemma TilesCons(p: Provider, w: Watch, v: Window, rest: seq<Window>)
    requires v.from <= v.to < v.from + LOG_WINDOW && ReadInFull(p, w, v)
    requires rest != [] ==> Tiles(p, w, rest, v.to + 1, EndOf(rest))
    ensures Tiles(p, w, [v] + rest, v.from, EndOf([v] + rest))
  {
    assert ([v] + rest)[1..] == rest;
    if rest != [] { TilesGrow(p, w, rest, v.to + 1, EndOf(rest)); }
  }

  lemma TilesGrow(p: Provider, w: Watch, windows: seq<Window>, start: int, end: int)
    requires Tiles(p, w, windows, start, end) && windows != []
    ensures start <= end && EndOf(windows) == end
    decreases |windows|
  {
    if |windows| > 1 { TilesGrow(p, w, windows[1..], windows[0].to + 1, end); }
  }

  /** What reading one window comes to, and the queries it spent. */
  datatype Verdict =
    | Answered(located: set<string>, transfers: set<string>, spent: nat)
    | NotAnswered(code: ErrorCode, spent: nat)

  function VerdictOn(p: Provider, w: Watch, v: Window): Verdict {
    if ReadInFull(p, w, v) then Answered(LocatedIn(p, w, v).value, TransfersIn(p, w, v).value, Cost(w))
    else NotAnswered(Refusal(p, w, v), Spent(p, w, v))
  }

  /** Reading one window: the second query is not sent when the first is refused. */
  method ReadWindow(p: Provider, w: Watch, from: int, to: int, queries: nat) returns (r: Verdict)
    ensures r == VerdictOn(p, w, Window(from, to, queries)) && 1 <= r.spent <= Cost(w)
  {
    var spent, located := 0, Ok({});
    if w.locator.Some? {
      located := Scan(p, w, queries, UserOperations(from, to));
      spent := 1;
    }
    if located.Err? { return NotAnswered(located.error, spent); }
    var transfers := Scan(p, w, queries + spent, Transfers(from, to));
    spent := spent + 1;
    return if transfers.Err? then NotAnswered(transfers.error, spent)
      else Answered(located.value, transfers.value, spent);
  }

  datatype Scanned = Scanned(end: int, located: set<string>, transfers: set<string>)

  /** What a pass returns, read off its committed windows. */
  function Outcome(p: Provider, w: Watch, windows: seq<Window>): Option<Scanned> {
    if windows == [] then None
    else Some(Scanned(EndOf(windows), AllLocated(p, w, windows), AllTransfers(p, w, windows)))
  }

  /** `scanRange`: read window by window within the budget; a candidate stops the pass, a range refusal halves the
      window. */
  method ScanRange(p: Provider, w: Watch, start: int, safeEnd: int) returns (r: Result<Scanned>, queries: nat)
    ensures queries <= MAX_QUERIES
    ensures var out := Outcome(p, w, PassWindows(p, w, start, safeEnd));
      if out.None? then r.Err? else r == Ok(out.value)
  {
    forall at: Place ensures RestLaw(p, w, safeEnd, at, Outcomes(p, w, safeEnd)) { OutcomeStep(p, w, safeEnd, at); }
    r, queries := ScanWindows(p, w, start, safeEnd, Outcomes(p, w, safeEnd));
  }

  /** What the rest of a pass returns, from each place it can stand at. */
  ghost function Outcomes(p: Provider, w: Watch, safeEnd: int): Place -> Option<Scanned> {
    at => Outcome(p, w, Committed(p, w, safeEnd, at))
  }

  /** Any reading of the rest of a pass that obeys the step law is what the loop returns. */
  method ScanWindows(p: Provider, w: Watch, start: int, safeEnd: int, ghost rest: Place -> Option<Scanned>)
    returns (r: Result<Scanned>, queries: nat)
    requires forall at: Place :: RestLaw(p, w, safeEnd, at, rest)
    ensures queries <= MAX_QUERIES
    ensures var out := rest(Place(start, LOG_WINDOW, 0)); if out.None? then r.Err? else r == Ok(out.value)
  {
    var located: set<string>, transfers: set<string> := {}, {};
    var from, window, end: Option<int>, refusal := start, LOG_WINDOW, None, RpcAmbiguous;
    queries := 0;
    while from <= safeEnd && queries + Cost(w) <= MAX_QUERIES
      invariant queries <= MAX_QUERIES && window >= 1 && located == {} && transfers == {}
      invariant rest(Place(start, LOG_WINDOW, 0)) == Continue(end, rest(Place(from, window, queries)))
      decreases MAX_QUERIES - queries
    {
      var to := End(safeEnd, from, window);
      assert RestLaw(p, w, safeEnd, Place(from, window, queries), rest);
      var verdict := ReadWindow(p, w, from, to, queries);
      queries := queries + verdict.spent;
      if verdict.NotAnswered? {
        refusal := verdict.code;
        if refusal == RpcAmbiguous && window > 1 {
          window := window / 2;
          continue;
        }
        break;
      }
      located := located + verdict.located;
      transfers := transfers + verdict.transfers;
      assert located == verdict.located && transfers == verdict.transfers;
      end := Some(to);
      from := to + 1;
      if located != {} || transfers != {} { break; }
    }
    assert RestLaw(p, w, safeEnd, Place(from, window, queries), rest);
    if end.None? { return Err(refusal), queries; }
    return Ok(Scanned(end.value, located, transfers)), queries;
  }

  /** One step of a pass: a quiet window goes on, a candidate ends it, a range refusal halves the window. */
  ghost predicate RestLaw(p: Provider, w: Watch, safeEnd: int, at: Place, rest: Place -> Option<Scanned>) {
    rest(at) ==
      if !Continues(w, safeEnd, at) then None
      else
        var v := WindowAt(safeEnd, at);
        match VerdictOn(p, w, v)
        case Answered(located, transfers, spent) =>
          if located == {} && transfers == {} then
            Continue(Some(v.to), rest(Place(v.to + 1, at.window, at.queries + spent)))
          else Some(Scanned(v.to, located, transfers))
        case NotAnswered(code, spent) =>
          if code == RpcAmbiguous && at.window > 1 then rest(Place(at.from, at.window / 2, at.queries + spent))
          else None
  }

  /** The pass so far ended at `end` without a candidate; `rest` is what the remaining windows find. */
  function Continue(end: Option<int>, rest: Option<Scanned>): Option<Scanned> {
    if rest.Some? then rest else if end.Some? then Some(Scanned(end.value, {}, {})) else None
  }

  lemma OutcomeCons(p: Provider, w: Watch, v: Window, rest: seq<Window>)
    requires ReadInFull(p, w, v)
    ensures Outcome(p, w, [v]) == Some(Scanned(v.to, LocatedIn(p, w, v).value, TransfersIn(p, w, v).value))
    ensures Empty(p, w, v) ==> Outcome(p, w, [v] + rest) == Continue(Some(v.to), Outcome(p, w, rest))
  {
    assert ([v] + rest)[1..] == rest && [v] + [] == [v];
    assert AllLocated(p, w, [v]) == LocatedIn(p, w, v).value;
    assert AllTransfers(p, w, [v]) == TransfersIn(p, w, v).value;
    if Empty(p, w, v) {
      assert AllLocated(p, w, [v] + rest) == AllLocated(p, w, rest);
      assert AllTransfers(p, w, [v] + rest) == AllTransfers(p, w, rest);
    }
  }

  lemma OutcomeJoin(p: Provider, w: Watch, v: Window, rest: seq<Window>, all: seq<Window>)
    requires ReadInFull(p, w, v) && all == [v] + (if Empty(p, w, v) then rest else [])
    ensures Outcome(p, w, all) ==
      if Empty(p, w, v) then Continue(Some(v.to), Outcome(p, w, rest))
      else Some(Scanned(v.to, LocatedIn(p, w, v).value, TransfersIn(p, w, v).value))
  {
    OutcomeCons(p, w, v, rest);
    assert [v] + [] == [v];
  }

  /** The committed windows, one window at a time. */
  lemma CommittedStep(p: Provider, w: Watch, safeEnd: int, at: Place, rest: seq<Window>, half: seq<Window>)
    requires var v := WindowAt(safeEnd, at);
      && rest == Committed(p, w, safeEnd, Place(v.to + 1, at.window, at.queries + Cost(w)))
      && half == Committed(p, w, safeEnd, Place(at.from, at.window / 2, at.queries + VerdictOn(p, w, v).spent))
    ensures var v := WindowAt(safeEnd, at);
      Committed(p, w, safeEnd, at) ==
        if !Continues(w, safeEnd, at) then []
        else if ReadInFull(p, w, v) then [v] + (if Empty(p, w, v) then rest else [])
        else if Refusal(p, w, v) == RpcAmbiguous && at.window > 1 then half else []
  {
  }

  lemma LawOfStep(p: Provider, w: Watch, safeEnd: int, at: Place, all: seq<Window>, rest: seq<Window>,
                  half: seq<Window>, out: Place -> Option<Scanned>)
    requires var v := WindowAt(safeEnd, at);
      && out(at) == Outcome(p, w, all)
      && out(Place(v.to + 1, at.window, at.queries + Cost(w))) == Outcome(p, w, rest)
      && out(Place(at.from, at.window / 2, at.queries + VerdictOn(p, w, v).spent)) == Outcome(p, w, half)
      && all == if !Continues(w, safeEnd, at) then []
                else if ReadInFull(p, w, v) then [v] + (if Empty(p, w, v) then rest else [])
                else if Refusal(p, w, v) == RpcAmbiguous && at.window > 1 then half else []
    ensures RestLaw(p, w, safeEnd, at, out)
  {
    var v := WindowAt(safeEnd, at);
    if Continues(w, safeEnd, at) && ReadInFull(p, w, v) { OutcomeJoin(p, w, v, rest, all); }
  }

  /** The committed windows obey the step law. */
  lemma OutcomeStep(p: Provider, w: Watch, safeEnd: int, at: Place)
    ensures RestLaw(p, w, safeEnd, at, Outcomes(p, w, safeEnd))
  {
    var v := WindowAt(safeEnd, at);
    var rest := Committed(p, w, safeEnd, Place(v.to + 1, at.window, at.queries + Cost(w)));
    var half := Committed(p, w, safeEnd, Place(at.from, at.window / 2, at.queries + VerdictOn(p, w, v).spent));
    CommittedStep(p, w, safeEnd, at, rest, half);
    LawOfStep(p, w, safeEnd, at, Committed(p, w, safeEnd, at), rest, half, Outcomes(p, w, safeEnd));
  }

  // ---------------------------------------------------------------- what a pass finds

  /** An answered query holds exactly the chain's logs that match it. */
  ghost predicate Honest(p: Provider, w: Watch, chain: set<Log>) {
    forall n: nat, q: Query :: p.answer(n, q).Rows? ==> AnsweredFully(w, chain, q, p.answer(n, q).rows)
  }

  ghost predicate AnsweredFully(w: Watch, chain: set<Log>, q: Query, rows: seq<Log>) {
    forall l :: l in rows <==> l in chain && Fits(w, q, l)
  }

  function MatchesIn(w: Watch, chain: set<Log>, q: Query): set<string> {
    set l | l in chain && Fits(w, q, l) && Candidate(w, q, l) :: l.tx
  }

  function Located(w: Watch, chain: set<Log>, from: int, to: int): set<string> {
    if w.locator.None? then {} else MatchesIn(w, chain, UserOperations(from, to))
  }

  lemma ReadFindsAll(p: Provider, w: Watch, chain: set<Log>, n: nat, q: Query)
    requires Honest(p, w, chain) && Read(p, w, n, q).Ok?
    ensures Read(p, w, n, q).value == MatchesIn(w, chain, q)
  {
    assert AnsweredFully(w, chain, q, p.answer(n, q).rows);
  }

  lemma MatchesSplit(w: Watch, chain: set<Log>, from: int, mid: int, to: int)
    requires from <= mid <= to
    ensures MatchesIn(w, chain, Transfers(from, to)) ==
      MatchesIn(w, chain, Transfers(from, mid)) + MatchesIn(w, chain, Transfers(mid + 1, to))
  {
    assert forall l: Log ::
      Fits(w, Transfers(from, to), l) <==> Fits(w, Transfers(from, mid), l) || Fits(w, Transfers(mid + 1, to), l);
  }

  lemma LocatedSplit(w: Watch, chain: set<Log>, from: int, mid: int, to: int)
    requires from <= mid <= to
    ensures Located(w, chain, from, to) == Located(w, chain, from, mid) + Located(w, chain, mid + 1, to)
  {
    assert forall l: Log ::
      Fits(w, UserOperations(from, to), l) <==>
        Fits(w, UserOperations(from, mid), l) || Fits(w, UserOperations(mid + 1, to), l);
  }

  lemma WindowFindsAll(p: Provider, w: Watch, chain: set<Log>, v: Window)
    requires Honest(p, w, chain) && ReadInFull(p, w, v)
    ensures TransfersIn(p, w, v) == Ok(MatchesIn(w, chain, Transfers(v.from, v.to)))
    ensures LocatedIn(p, w, v) == Ok(Located(w, chain, v.from, v.to))
  {
    ReadFindsAll(p, w, chain, v.first + Cost(w) - 1, Transfers(v.from, v.to));
    if w.locator.Some? { ReadFindsAll(p, w, chain, v.first, UserOperations(v.from, v.to)); }
  }

  lemma EmptyRange(w: Watch, chain: set<Log>, from: int, to: int)
    requires from > to
    ensures MatchesIn(w, chain, Transfers(from, to)) == {} && Located(w, chain, from, to) == {}
  {
  }

  lemma {:induction false} TilesFindTransfers(p: Provider, w: Watch, chain: set<Log>, windows: seq<Window>, start: int,
                                              end: int)
    requires Honest(p, w, chain) && Tiles(p, w, windows, start, end)
    ensures AllTransfers(p, w, windows) == MatchesIn(w, chain, Transfers(start, end))
    decreases |windows|
  {
    if windows == [] {
      EmptyRange(w, chain, start, end);
    } else {
      WindowFindsAll(p, w, chain, windows[0]);
      MatchesSplit(w, chain, start, windows[0].to, end);
      TilesFindTransfers(p, w, chain, windows[1..], windows[0].to + 1, end);
    }
  }

  lemma {:induction false} TilesFindLocated(p: Provider, w: Watch, chain: set<Log>, windows: seq<Window>, start: int,
                                            end: int)
    requires Honest(p, w, chain) && Tiles(p, w, windows, start, end)
    ensures AllLocated(p, w, windows) == Located(w, chain, start, end)
    decreases |windows|
  {
    if windows == [] {
      EmptyRange(w, chain, start, end);
    } else {
      var found := Located(w, chain, start, windows[0].to);
      WindowFindsAll(p, w, chain, windows[0]);
      assert AllLocated(p, w, windows) == found + AllLocated(p, w, windows[1..]);
      LocatedSplit(w, chain, start, windows[0].to, end);
      TilesFindLocated(p, w, chain, windows[1..], windows[0].to + 1, end);
    }
  }

  /** Over windows that tile a range, the sets returned are exactly the chain's matches in that range. */
  lemma TilesFindAll(p: Provider, w: Watch, chain: set<Log>, windows: seq<Window>, start: int, end: int)
    requires Honest(p, w, chain) && Tiles(p, w, windows, start, end)
    ensures AllTransfers(p, w, windows) == MatchesIn(w, chain, Transfers(start, end))
    ensures AllLocated(p, w, windows) == Located(w, chain, start, end)
  {
    TilesFindTransfers(p, w, chain, windows, start, end);
    TilesFindLocated(p, w, chain, windows, start, end);
  }

  /** Every block of a tiled range lies in a window whose queries all succeeded. */
  lemma {:induction false} TilesReadEveryBlock(p: Provider, w: Watch, windows: seq<Window>, start: int, end: int,
                                               b: int)
    returns (v: Window)
    requires Tiles(p, w, windows, start, end) && start <= b <= end
    ensures v in windows && v.from <= b <= v.to && ReadInFull(p, w, v)
    decreases |windows|
  {
    if b <= windows[0].to {
      v := windows[0];
    } else {
      v := TilesReadEveryBlock(p, w, windows[1..], windows[0].to + 1, end, b);
    }
  }

  // ---------------------------------------------------------------- how far a pass gets

  ghost predicate NeverRefuses(p: Provider, w: Watch) { forall n: nat, q: Query :: Read(p, w, n, q) == Ok({}) }

  lemma QuietWindow(p: Provider, w: Watch, v: Window)
    requires NeverRefuses(p, w)
    ensures ReadInFull(p, w, v) && Empty(p, w, v)
  {
  }

  function Least(a: int, b: int): int { if a < b then a else b }

  /** Where a pass ends that spends its remaining queries on full windows. */
  function FullReach(w: Watch, safeEnd: int, from: int, queries: nat): int
    requires queries <= MAX_QUERIES
  {
    Least(safeEnd, from + LOG_WINDOW * ((MAX_QUERIES - queries) / Cost(w)) - 1)
  }

  lemma ReachStep(w: Watch, safeEnd: int, from: int, to: int, queries: nat)
    requires queries + Cost(w) <= MAX_QUERIES && to == End(safeEnd, from, LOG_WINDOW) && from <= safeEnd
    ensures FullReach(w, safeEnd, from, queries) ==
      if to < safeEnd && queries + 2 * Cost(w) <= MAX_QUERIES then FullReach(w, safeEnd, to + 1, queries + Cost(w))
      else to
  {
    var left := MAX_QUERIES - queries;
    if w.locator.None? {
      assert left / 1 == 1 + (left - 1) / 1;
    } else {
      assert left / 2 == 1 + (left - 2) / 2;
    }
  }

  /** With every query answered and nothing found, the whole budget is spent on full windows. */
  lemma {:induction false} QuietReach(p: Provider, w: Watch, safeEnd: int, at: Place)
    requires NeverRefuses(p, w) && at.window == LOG_WINDOW && Continues(w, safeEnd, at)
    ensures var windows := Committed(p, w, safeEnd, at);
      windows != [] && EndOf(windows) == FullReach(w, safeEnd, at.from, at.queries)
    decreases MAX_QUERIES - at.queries
  {
    var v := WindowAt(safeEnd, at);
    var next := Place(v.to + 1, LOG_WINDOW, at.queries + Cost(w));
    QuietWindow(p, w, v);
    ReachStep(w, safeEnd, at.from, v.to, at.queries);
    if Continues(w, safeEnd, next) { QuietReach(p, w, safeEnd, next); }
  }

  /** Where an undisturbed pass ends: twelve full windows on, 24 without a locator, or at the safe head. */
  function PassReach(w: Watch, start: int, safeEnd: int): int {
    Least(safeEnd, start + LOG_WINDOW * (if w.locator.Some? then 12 else 24) - 1)
  }

  lemma WholeBudget(w: Watch, start: int, safeEnd: int, at: Place)
    requires at == Place(start, LOG_WINDOW, 0)
    ensures FullReach(w, safeEnd, at.from, at.queries) == PassReach(w, start, safeEnd)
  {
    if w.locator.Some? {
      assert (MAX_QUERIES - at.queries) / 2 == 12;
    } else {
      assert (MAX_QUERIES - at.queries) / 1 == 24;
    }
  }

  /** A pass whose queries are all answered and find nothing reads that far: about 13 hours of Base with a locator. */
  lemma UndisturbedPassReach(p: Provider, w: Watch, start: int, safeEnd: int)
    requires NeverRefuses(p, w) && start <= safeEnd
    ensures Outcome(p, w, PassWindows(p, w, start, safeEnd)).Some?
    ensures Outcome(p, w, PassWindows(p, w, start, safeEnd)).value.end == PassReach(w, start, safeEnd)
  {
    var at := Place(start, LOG_WINDOW, 0);
    WholeBudget(w, start, safeEnd, at);
    QuietReach(p, w, safeEnd, at);
  }

  function Halvings(window: nat): nat { if window <= 1 then 0 else 1 + Halvings(window / 2) }

  /** Only range refusals, and none on a single block. */
  ghost predicate OnlyRangeRefusals(p: Provider, w: Watch) {
    forall v: Window :: !ReadInFull(p, w, v) ==> Refusal(p, w, v) == RpcAmbiguous && v.from < v.to
  }

  lemma {:induction false} HalvingReachesAWindow(p: Provider, w: Watch, safeEnd: int, at: Place)
    requires OnlyRangeRefusals(p, w) && at.from <= safeEnd && at.window >= 1
    requires at.queries + 2 * Halvings(at.window) + 2 <= MAX_QUERIES
    ensures Committed(p, w, safeEnd, at) != []
    decreases at.window
  {
    var v := WindowAt(safeEnd, at);
    if !ReadInFull(p, w, v) {
      HalvingReachesAWindow(p, w, safeEnd, Place(at.from, at.window / 2, at.queries + Spent(p, w, v)));
    }
  }

  /** However small the ranges a provider serves, the budget is enough to halve down to one: a pass over an
      unread range always commits a window unless some refusal is not about the range. */
  lemma PassAlwaysProgresses(p: Provider, w: Watch, start: int, safeEnd: int)
    requires OnlyRangeRefusals(p, w) && start <= safeEnd
    ensures PassWindows(p, w, start, safeEnd) != []
  {
    assert Halvings(LOG_WINDOW) == 10 by {
      assert Halvings(7) == 2 && Halvings(62) == 2 + 3 && Halvings(500) == 3 + 5;
    }
    HalvingReachesAWindow(p, w, safeEnd, Place(start, LOG_WINDOW, 0));
  }
}
