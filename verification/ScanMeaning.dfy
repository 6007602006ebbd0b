/** What one log pass asks and keeps, step by step and row by row. */
module ScanMeaning {
  import opened Basics
  import opened LogScan

  // ---------------------------------------------------------------- one query

  /** A query is read exactly when it is answered with rows that all match the filter asked: the contract, the topics
      and the block range; it yields the transactions of the user operations, or of the transfers of the exact
      amount. */
  lemma ReadMeaning(p: Provider, w: Watch, n: nat, q: Query)
    ensures Read(p, w, n, q).Ok? <==> p.answer(n, q).Rows? && forall l :: l in p.answer(n, q).rows ==> Asked(w, q, l)
    ensures Read(p, w, n, q).Ok? ==>
      forall t :: t in Read(p, w, n, q).value <==>
        exists l :: l in p.answer(n, q).rows && l.tx == t && (q.Transfers? ==> l.amount == w.amount)
    ensures Read(p, w, n, q).Err? ==>
      Read(p, w, n, q).error == (if p.answer(n, q).Refused? then p.answer(n, q).code else RpcProtocol)
  {
    if p.answer(n, q).Rows? {
      forall l | l in p.answer(n, q).rows ensures Fits(w, q, l) <==> Asked(w, q, l) { }
    }
  }

  /** The log matches the filter: a Transfer of the token from the sender to the recipient, or the UserOperationEvent of
      the entry point for the locator and the sender, in the range. */
  predicate Asked(w: Watch, q: Query, l: Log) {
    && q.from <= l.block <= q.to
    && if q.Transfers? then
         l.contract == w.token
         && l.topics == ["0xddf252ad1be2c89b69c2b068fc378daa952ba7f163c4a11628f55a4df523b3ef", w.sender, w.recipient]
       else
         && l.contract == w.entryPoint && w.locator.Some? && |l.topics| == 4
         && l.topics[..3] ==
              ["0x49628fd1471006c1482da88028e9ce4dbb080b815c9b0344d39e5a8e6ec1419f", w.locator.value, w.sender]
  }

  // ---------------------------------------------------------------- the steps of a pass

  /** The queries one window takes: the user operation's, where there is a locator to look for, and the transfers'. */
  function Needed(w: Watch): nat { if w.locator.Some? then 2 else 1 }

  /** The range tried at a place: `window` blocks, cut off at the safe head. */
  function Tried(safeEnd: int, at: Place): Window {
    Window(at.from, if safeEnd < at.from + at.window - 1 then safeEnd else at.from + at.window - 1, at.queries)
  }

  /** The pass goes from one place to the next: past a quiet window at the same width, or to half the width over a range
      the provider refused, counting the queries it sent. */
  predicate Step(p: Provider, w: Watch, safeEnd: int, a: Place, b: Place) {
    var v := Tried(safeEnd, a);
    if w.locator.Some? && Read(p, w, a.queries, UserOperations(v.from, v.to)).Err? then
      Read(p, w, a.queries, UserOperations(v.from, v.to)).error == RpcAmbiguous && a.window > 1
      && b == Place(a.from, a.window / 2, a.queries + 1)
    else
      var last := Read(p, w, a.queries + Needed(w) - 1, Transfers(v.from, v.to));
      if last.Err? then
        last.error == RpcAmbiguous && a.window > 1 && b == Place(a.from, a.window / 2, a.queries + Needed(w))
      else
        last.value == {} && (w.locator.Some? ==> Read(p, w, a.queries, UserOperations(v.from, v.to)).value == {})
        && b == Place(v.to + 1, a.window, a.queries + Needed(w))
  }

  /** The pass may still ask at this place. */
  predicate MayAsk(w: Watch, safeEnd: int, at: Place) { at.from <= safeEnd && at.queries + Needed(w) <= 24 }

  /** A run of places from the first: each step is the pass's, and it ends only where no step leads on. */
  ghost predicate IsTrace(p: Provider, w: Watch, safeEnd: int, start: Place, trace: seq<Place>) {
    && (trace == [] <==> !MayAsk(w, safeEnd, start)) && (trace != [] ==> trace[0] == start)
    && (forall i :: 0 <= i < |trace| ==> MayAsk(w, safeEnd, trace[i]))
    && (forall i :: 0 < i < |trace| ==> Step(p, w, safeEnd, trace[i - 1], trace[i]))
    && (trace != [] ==> forall b :: Step(p, w, safeEnd, trace[|trace| - 1], b) ==> !MayAsk(w, safeEnd, b))
  }

  /** The places whose windows were read, in order. */
  function ReadOnes(p: Provider, w: Watch, safeEnd: int, trace: seq<Place>): seq<Window> {
    if trace == [] then []
    else (if ReadInFull(p, w, Tried(safeEnd, trace[0])) then [Tried(safeEnd, trace[0])] else [])
         + ReadOnes(p, w, safeEnd, trace[1..])
  }

  lemma TraceCons(p: Provider, w: Watch, safeEnd: int, at: Place, next: Place, rest: seq<Place>)
    requires MayAsk(w, safeEnd, at) && Step(p, w, safeEnd, at, next) && IsTrace(p, w, safeEnd, next, rest)
    ensures IsTrace(p, w, safeEnd, at, [at] + rest)
    ensures ReadOnes(p, w, safeEnd, [at] + rest) ==
      (if ReadInFull(p, w, Tried(safeEnd, at)) then [Tried(safeEnd, at)] else []) + ReadOnes(p, w, safeEnd, rest)
  {
    var trace := [at] + rest;
    assert trace[1..] == rest;
    forall i | 0 < i < |trace| ensures Step(p, w, safeEnd, trace[i - 1], trace[i]) {
      if i > 1 { assert trace[i - 1] == rest[i - 2]; }
    }
    forall b | Step(p, w, safeEnd, trace[|trace| - 1], b) ensures !MayAsk(w, safeEnd, b) { }
  }

  lemma TraceEnds(p: Provider, w: Watch, safeEnd: int, at: Place)
    requires MayAsk(w, safeEnd, at) && forall b :: !Step(p, w, safeEnd, at, b)
    ensures IsTrace(p, w, safeEnd, at, [at])
    ensures ReadOnes(p, w, safeEnd, [at]) == if ReadInFull(p, w, Tried(safeEnd, at)) then [Tried(safeEnd, at)] else []
  {
  }

  /** Where the recursive form goes on from a place. */
  function Next(p: Provider, w: Watch, safeEnd: int, at: Place): Option<Place> {
    var v := WindowAt(safeEnd, at);
    if ReadInFull(p, w, v) then
      if Empty(p, w, v) then Some(Place(v.to + 1, at.window, at.queries + Cost(w))) else None
    else if Refusal(p, w, v) == RpcAmbiguous && at.window > 1 then
      Some(Place(at.from, at.window / 2, at.queries + Spent(p, w, v)))
    else None
  }

  lemma NextIsStep(p: Provider, w: Watch, safeEnd: int, at: Place, b: Place)
    ensures Step(p, w, safeEnd, at, b) <==> Next(p, w, safeEnd, at) == Some(b)
    ensures Tried(safeEnd, at) == WindowAt(safeEnd, at) && (MayAsk(w, safeEnd, at) <==> Continues(w, safeEnd, at))
  {
  }

  lemma CommittedByNext(p: Provider, w: Watch, safeEnd: int, at: Place)
    requires Continues(w, safeEnd, at)
    ensures var v, next := WindowAt(safeEnd, at), Next(p, w, safeEnd, at);
      && (next.Some? ==> at.queries < next.value.queries <= MAX_QUERIES)
      && Committed(p, w, safeEnd, at) ==
           (if ReadInFull(p, w, v) then [v] else [])
           + (if next.Some? then Committed(p, w, safeEnd, next.value) else [])
  {
  }

  /** What a pass commits is exactly what its steps read, from any place and so from the cursor. */
  lemma {:induction false} CommittedIsTraced(p: Provider, w: Watch, safeEnd: int, at: Place) returns (trace: seq<Place>)
    ensures IsTrace(p, w, safeEnd, at, trace)
    ensures ReadOnes(p, w, safeEnd, trace) == Committed(p, w, safeEnd, at)
    decreases MAX_QUERIES - at.queries
  {
    trace := [];
    NextIsStep(p, w, safeEnd, at, at);
    if MayAsk(w, safeEnd, at) {
      var next := Next(p, w, safeEnd, at);
      CommittedByNext(p, w, safeEnd, at);
      forall b ensures Step(p, w, safeEnd, at, b) <==> next == Some(b) { NextIsStep(p, w, safeEnd, at, b); }
      if next.Some? {
        var rest := CommittedIsTraced(p, w, safeEnd, next.value);
        TraceCons(p, w, safeEnd, at, next.value, rest);
        trace := [at] + rest;
      } else {
        TraceEnds(p, w, safeEnd, at);
        trace := [at];
      }
    }
  }

  /** A pass from the cursor: it starts with 2,000 blocks and 24 queries to spend, and keeps what its steps read. */
  lemma PassIsTraced(p: Provider, w: Watch, start: int, safeEnd: int) returns (trace: seq<Place>)
    ensures IsTrace(p, w, safeEnd, Place(start, 2000, 0), trace)
    ensures PassWindows(p, w, start, safeEnd) == ReadOnes(p, w, safeEnd, trace)
  {
    trace := CommittedIsTraced(p, w, safeEnd, Place(start, LOG_WINDOW, 0));
  }

  // ---------------------------------------------------------------- what a pass returns

  /** A transaction is among the scanned transfers or located ones exactly when some window read holds it; the scan ends
      where the last window does. */
  lemma {:induction false} OutcomeMeaning(p: Provider, w: Watch, windows: seq<Window>, t: string)
    requires windows != [] && forall v :: v in windows ==> ReadInFull(p, w, v)
    ensures var s := Outcome(p, w, windows).value;
      && s.end == windows[|windows| - 1].to
      && (t in s.transfers <==>
            exists v :: v in windows && t in Found(Read(p, w, v.first + Needed(w) - 1, Transfers(v.from, v.to))))
      && (t in s.located <==>
            w.locator.Some?
              && exists v :: v in windows && t in Found(Read(p, w, v.first, UserOperations(v.from, v.to))))
    decreases |windows|
  {
    var v, rest := windows[0], windows[1..];
    assert forall u :: u in windows <==> u == v || u in rest;
    if rest == [] {
      assert AllTransfers(p, w, rest) == {} == AllLocated(p, w, rest);
    } else {
      OutcomeMeaning(p, w, rest, t);
    }
  }
}
