/** The chain policy's own daily usage over an account's operations, and the principal cap it enforces. */
module ChainUsage {
  import opened Basics

  datatype Policy = Policy(profile: string, rail: string, asset: string, maximum: nat, daily: nat)

  datatype Proof = Proof(feePayer: string, fee: nat, rent: nat)

  datatype Operation = Operation(
    id: string, profile: string, rail: string, address: string, asset: string, amount: nat, maximumNativeDebit: nat,
    rentPayer: string,
    terminal: bool, completed: bool, updatedAt: int, proof: Option<Proof>)

  // ---------------------------------------------------------------- chainUsage

  predicate Counts(p: Policy, op: Operation, excluding: Option<string>) {
    excluding != Some(op.id) && op.profile == p.profile && op.rail == p.rail
  }

  /** An open transfer of this asset is charged on every day; a completed one on the day it completed. */
  function PrincipalOf(p: Policy, op: Operation, day: int): nat {
    if op.asset == p.asset && (!op.terminal || (op.completed && Day(op.updatedAt) == day)) then op.amount else 0
  }

  /** An open transfer may cost its maximum; a terminal one cost its account what the proof says, on its own day. */
  function FeesOf(op: Operation, day: int): nat {
    if !op.terminal then op.maximumNativeDebit
    else if Day(op.updatedAt) != day || op.proof.None? then 0
    else
      var fee := if op.proof.value.feePayer == op.address then op.proof.value.fee else 0;
      var rent := if op.rentPayer == op.address then op.proof.value.rent else 0;
      fee + rent
  }

  /** What is summed over the operations. */
  datatype Measure =
    | PrincipalAt(policy: Policy, day: int, excluding: Option<string>)
    | FeesAt(policy: Policy, day: int, excluding: Option<string>)
    | CompletedAt(policy: Policy, day: int)
    | WorstAt(policy: Policy, day: int)

  function Weight(m: Measure, op: Operation): nat {
    match m
    case PrincipalAt(p, day, excluding) => if Counts(p, op, excluding) then PrincipalOf(p, op, day) else 0
    case FeesAt(p, day, excluding) => if Counts(p, op, excluding) then FeesOf(op, day) else 0
    case CompletedAt(p, day) => if Counts(p, op, None) && op.terminal then PrincipalOf(p, op, day) else 0
    case WorstAt(p, day) =>
      if Counts(p, op, None) && (op.terminal || Day(op.updatedAt) <= day) then PrincipalOf(p, op, day) else 0
  }

  function Sum(m: Measure, ops: seq<Operation>): nat {
    if ops == [] then 0 else Sum(m, ops[..|ops| - 1]) + Weight(m, ops[|ops| - 1])
  }

  /** `chainUsage`: one loop, two accumulators. */
  method Usage(p: Policy, ops: seq<Operation>, now: int, excluding: Option<string>) returns (principal: nat, fees: nat)
    ensures principal == Sum(PrincipalAt(p, Day(now), excluding), ops)
    ensures fees == Sum(FeesAt(p, Day(now), excluding), ops)
  {
    principal, fees := 0, 0;
    for i := 0 to |ops|
      invariant principal == Sum(PrincipalAt(p, Day(now), excluding), ops[..i])
      invariant fees == Sum(FeesAt(p, Day(now), excluding), ops[..i])
    {
      var op := ops[i];
      assert ops[..i + 1][..i] == ops[..i];
      if excluding == Some(op.id) || op.profile != p.profile || op.rail != p.rail { continue; }
      if !op.terminal {
        if op.asset == p.asset { principal := principal + op.amount; }
        fees := fees + op.maximumNativeDebit;
      } else if Day(op.updatedAt) == Day(now) {
        if op.asset == p.asset && op.completed { principal := principal + op.amount; }
        if op.proof.Some? && op.proof.value.feePayer == op.address { fees := fees + op.proof.value.fee; }
        if op.proof.Some? && op.rentPayer == op.address { fees := fees + op.proof.value.rent; }
      }
    }
    assert ops[..|ops|] == ops;
  }

  /** `assertChainPrincipal`. */
  predicate Fits(p: Policy, ops: seq<Operation>, amount: nat, now: int, excluding: Option<string>) {
    0 < amount <= p.maximum && Sum(PrincipalAt(p, Day(now), excluding), ops) + amount <= p.daily
  }

  // ---------------------------------------------------------------- sums

  lemma SumAppend(m: Measure, ops: seq<Operation>, op: Operation)
    ensures Sum(m, ops + [op]) == Sum(m, ops) + Weight(m, op)
  {
    assert (ops + [op])[..|ops|] == ops;
  }

  lemma {:induction false} SumUpdate(m: Measure, ops: seq<Operation>, i: nat, op: Operation)
    requires i < |ops|
    ensures Sum(m, ops[i := op]) + Weight(m, ops[i]) == Sum(m, ops) + Weight(m, op)
    decreases |ops|
  {
    var init := ops[..|ops| - 1];
    if i < |init| {
      SumUpdate(m, init, i, op);
      assert ops[i := op][..|init|] == init[i := op];
    } else {
      assert ops[i := op][..|init|] == init;
    }
  }

  lemma {:induction false} SumBelow(small: Measure, large: Measure, ops: seq<Operation>)
    requires forall i :: 0 <= i < |ops| ==> Weight(small, ops[i]) <= Weight(large, ops[i])
    ensures Sum(small, ops) <= Sum(large, ops)
    decreases |ops|
  {
    if ops != [] { SumBelow(small, large, ops[..|ops| - 1]); }
  }

  // ---------------------------------------------------------------- an operation is never counted against itself

  lemma {:induction false} ExcludingAbsent(p: Policy, ops: seq<Operation>, day: int, id: string)
    requires forall i :: 0 <= i < |ops| ==> ops[i].id != id
    ensures Sum(PrincipalAt(p, day, Some(id)), ops) == Sum(PrincipalAt(p, day, None), ops)
    decreases |ops|
  {
    if ops != [] { ExcludingAbsent(p, ops[..|ops| - 1], day, id); }
  }

  /** The check before signing, which sets the operation itself aside, gives the verdict its preparation would give
      now. */
  lemma RecheckBeforeSigning(p: Policy, ops: seq<Operation>, op: Operation, now: int)
    requires forall i :: 0 <= i < |ops| ==> ops[i].id != op.id
    ensures Fits(p, ops + [op], op.amount, now, Some(op.id)) <==> Fits(p, ops, op.amount, now, None)
  {
    SumAppend(PrincipalAt(p, Day(now), Some(op.id)), ops, op);
    ExcludingAbsent(p, ops, Day(now), op.id);
  }

  // ---------------------------------------------------------------- every run, whatever the clocks read

  /** A preparation carries the clock reading of its check and, in the operation, that of its record; every later step
      carries its own. Readings are free, also backwards, except that an operation never moves to before its last step.
      The check repeated before signing agrees with the first at the same reading and can otherwise only refuse more. */
  datatype Event =
    | Prepare(limits: Policy, op: Operation, checked: int)
    | Advance(i: nat, at: int)
    | Finish(i: nat, completed: bool, at: int, proof: Option<Proof>)

  predicate SameKey(a: Policy, b: Policy) { a.profile == b.profile && a.rail == b.rail && a.asset == b.asset }

  predicate Unused(ops: seq<Operation>, id: string) { forall i :: 0 <= i < |ops| ==> ops[i].id != id }

  predicate Own(p: Policy, op: Operation) { Counts(p, op, None) && op.asset == p.asset }

  /** A transfer of the policy's own asset is stored only if it fits the limits in force; other operations are
      unrestricted. */
  predicate Stores(p: Policy, ops: seq<Operation>, limits: Policy, op: Operation, checked: int) {
    && !op.terminal
    && (Own(p, op) ==> SameKey(limits, p) && Fits(limits, ops, op.amount, checked, Some(op.id)) && Unused(ops, op.id))
  }

  predicate Moves(ops: seq<Operation>, i: nat, at: int) { i < |ops| && !ops[i].terminal && ops[i].updatedAt <= at }

  function Next(p: Policy, ops: seq<Operation>, e: Event): seq<Operation> {
    match e
    case Prepare(limits, op, checked) => if Stores(p, ops, limits, op, checked) then ops + [op] else ops
    case Advance(i, at) => if Moves(ops, i, at) then ops[i := ops[i].(updatedAt := at)] else ops
    case Finish(i, completed, at, proof) =>
      if Moves(ops, i, at) then
        ops[i := ops[i].(terminal := true, completed := completed, updatedAt := at, proof := proof)]
      else ops
  }

  function Run(p: Policy, ops: seq<Operation>, events: seq<Event>): seq<Operation> {
    if events == [] then ops else Next(p, Run(p, ops, events[..|events| - 1]), events[|events| - 1])
  }

  // ---------------------------------------------------------------- the worst a day can still become

  /** What completed on a day and every open transfer that may still complete on it are together within the bound. */
  ghost predicate Safe(p: Policy, ops: seq<Operation>, bound: nat) {
    forall day :: Sum(WorstAt(p, day), ops) <= bound
  }

  lemma MoveKeepsSafe(p: Policy, ops: seq<Operation>, e: Event, bound: nat)
    requires Safe(p, ops, bound) && !e.Prepare?
    ensures Safe(p, Next(p, ops, e), bound)
  {
    var t := Next(p, ops, e);
    if t != ops {
      DayMonotone(ops[e.i].updatedAt, e.at);
      forall day ensures Sum(WorstAt(p, day), t) <= bound { SumUpdate(WorstAt(p, day), ops, e.i, t[e.i]); }
    }
  }

  ghost predicate OnlyMoves(events: seq<Event>) { forall i :: 0 <= i < |events| ==> !events[i].Prepare? }

  lemma {:induction false} MovesKeepSafe(p: Policy, ops: seq<Operation>, events: seq<Event>, bound: nat)
    requires Safe(p, ops, bound) && OnlyMoves(events)
    ensures Safe(p, Run(p, ops, events), bound)
    decreases |events|
  {
    if events != [] {
      var before := events[..|events| - 1];
      assert forall i :: 0 <= i < |before| ==> before[i] == events[i];
      MovesKeepSafe(p, ops, before, bound);
      MoveKeepsSafe(p, Run(p, ops, before), events[|events| - 1], bound);
    }
  }

  lemma CompletedWithinWorst(p: Policy, ops: seq<Operation>, day: int)
    ensures Sum(CompletedAt(p, day), ops) <= Sum(WorstAt(p, day), ops)
  {
    SumBelow(CompletedAt(p, day), WorstAt(p, day), ops);
  }

  /** However the stored transfers go on and whatever the clocks read, no day completes more than the bound. */
  ghost predicate NeverPasses(p: Policy, ops: seq<Operation>, bound: nat) {
    forall events, day | OnlyMoves(events) :: Sum(CompletedAt(p, day), Run(p, ops, events)) <= bound
  }

  // ---------------------------------------------------------------- the worst is reached

  function EndOf(day: int): (at: int)
    ensures Day(at) == day && forall other: int :: Day(other) <= day ==> other <= at
  {
    day * MS_PER_DAY + MS_PER_DAY - 1
  }

  function Ended(op: Operation, at: int): Operation {
    if !op.terminal && op.updatedAt <= at then op.(terminal := true, completed := true, updatedAt := at, proof := None)
    else op
  }

  /** The first `k` operations finished where they still can. */
  function EndFirst(ops: seq<Operation>, k: nat, at: int): (r: seq<Operation>)
    requires k <= |ops|
    ensures |r| == |ops| && forall i :: 0 <= i < |ops| ==> r[i] == if i < k then Ended(ops[i], at) else ops[i]
  {
    seq(|ops|, i requires 0 <= i < |ops| => if i < k then Ended(ops[i], at) else ops[i])
  }

  function Finishes(k: nat, at: int): (e: seq<Event>)
    ensures |e| == k && OnlyMoves(e)
  {
    if k == 0 then [] else Finishes(k - 1, at) + [Finish(k - 1, true, at, None)]
  }

  lemma {:induction false} FinishesEnd(p: Policy, ops: seq<Operation>, k: nat, at: int)
    requires k <= |ops|
    ensures Run(p, ops, Finishes(k, at)) == EndFirst(ops, k, at)
  {
    if k == 0 {
      assert EndFirst(ops, 0, at) == ops;
    } else {
      FinishesEnd(p, ops, k - 1, at);
      assert Finishes(k, at)[..k - 1] == Finishes(k - 1, at);
      var before := EndFirst(ops, k - 1, at);
      assert Next(p, before, Finish(k - 1, true, at, None)) == before[k - 1 := Ended(ops[k - 1], at)];
      assert EndFirst(ops, k, at) == before[k - 1 := Ended(ops[k - 1], at)];
    }
  }

  lemma {:induction false} SameWeights(a: Measure, b: Measure, x: seq<Operation>, y: seq<Operation>)
    requires |x| == |y| && forall i :: 0 <= i < |x| ==> Weight(a, x[i]) == Weight(b, y[i])
    ensures Sum(a, x) == Sum(b, y)
    decreases |x|
  {
    if x != [] { SameWeights(a, b, x[..|x| - 1], y[..|y| - 1]); }
  }

  lemma EndedWeight(p: Policy, op: Operation, day: int)
    ensures Weight(CompletedAt(p, day), Ended(op, EndOf(day))) == Weight(WorstAt(p, day), op)
  {
    if op.updatedAt <= EndOf(day) { DayMonotone(op.updatedAt, EndOf(day)); }
  }

  /** Finishing everything at the end of a day completes on it exactly the worst it could become. */
  lemma WorstIsReached(p: Policy, ops: seq<Operation>, day: int)
    ensures Sum(CompletedAt(p, day), Run(p, ops, Finishes(|ops|, EndOf(day)))) == Sum(WorstAt(p, day), ops)
  {
    var at := EndOf(day);
    FinishesEnd(p, ops, |ops|, at);
    var ended := EndFirst(ops, |ops|, at);
    forall i | 0 <= i < |ops| ensures Weight(CompletedAt(p, day), ended[i]) == Weight(WorstAt(p, day), ops[i]) {
      EndedWeight(p, ops[i], day);
    }
    SameWeights(CompletedAt(p, day), WorstAt(p, day), ended, ops);
  }

  /** No order and no clock readings of the remaining steps pass the bound exactly when no day's worst does. */
  lemma NeverPassesIffSafe(p: Policy, ops: seq<Operation>, bound: nat)
    ensures NeverPasses(p, ops, bound) <==> Safe(p, ops, bound)
  {
    if Safe(p, ops, bound) {
      forall events, day | OnlyMoves(events) ensures Sum(CompletedAt(p, day), Run(p, ops, events)) <= bound {
        MovesKeepSafe(p, ops, events, bound);
        CompletedWithinWorst(p, Run(p, ops, events), day);
      }
    }
    if NeverPasses(p, ops, bound) {
      forall day ensures Sum(WorstAt(p, day), ops) <= bound { WorstIsReached(p, ops, day); }
    }
  }

  // ---------------------------------------------------------------- when a preparation is safe

  /** Read off the stored operations before a preparation: on every other day it could still complete on, its amount
      fits beside what completed there and what may. Days without a completion need no check of their own. */
  predicate OtherDaysFit(p: Policy, ops: seq<Operation>, limits: Policy, op: Operation, checked: int) {
    forall i | 0 <= i < |ops| && Own(p, ops[i]) && ops[i].terminal && ops[i].completed
      && Day(op.updatedAt) <= Day(ops[i].updatedAt) != Day(checked) ::
      Sum(WorstAt(p, Day(ops[i].updatedAt)), ops) + op.amount <= limits.daily
  }

  lemma {:induction false} SameKeySameSum(p: Policy, q: Policy, day: int, ops: seq<Operation>)
    requires SameKey(p, q)
    ensures Sum(PrincipalAt(p, day, None), ops) == Sum(PrincipalAt(q, day, None), ops)
    decreases |ops|
  {
    if ops != [] { SameKeySameSum(p, q, day, ops[..|ops| - 1]); }
  }

  /** On the checked day, and on any day nothing of its own completed, the check itself covers the worst. */
  lemma CheckCovers(p: Policy, ops: seq<Operation>, limits: Policy, op: Operation, checked: int, day: int)
    requires Stores(p, ops, limits, op, checked) && Own(p, op)
    requires day == Day(checked)
      || forall i ::
           0 <= i < |ops| && Own(p, ops[i]) && ops[i].terminal && ops[i].completed ==> Day(ops[i].updatedAt) != day
    ensures Sum(WorstAt(p, day), ops) + op.amount <= limits.daily
  {
    ExcludingAbsent(limits, ops, Day(checked), op.id);
    SameKeySameSum(p, limits, Day(checked), ops);
    SumBelow(WorstAt(p, day), PrincipalAt(p, Day(checked), None), ops);
  }

  lemma OtherDayCovered(p: Policy, ops: seq<Operation>, limits: Policy, op: Operation, checked: int, day: int)
    requires Stores(p, ops, limits, op, checked) && Own(p, op) && OtherDaysFit(p, ops, limits, op, checked)
      && Day(op.updatedAt) <= day
    ensures Sum(WorstAt(p, day), ops) + op.amount <= limits.daily
  {
    if day == Day(checked) {
      CheckCovers(p, ops, limits, op, checked, day);
    } else if i :| 0 <= i < |ops| && Own(p, ops[i]) && ops[i].terminal && ops[i].completed
                   && Day(ops[i].updatedAt) == day {
      assert Sum(WorstAt(p, Day(ops[i].updatedAt)), ops) + op.amount <= limits.daily;
    } else {
      CheckCovers(p, ops, limits, op, checked, day);
    }
  }

  lemma StoreKeepsSafe(p: Policy, ops: seq<Operation>, limits: Policy, op: Operation, checked: int, bound: nat)
    requires Safe(p, ops, bound) && Stores(p, ops, limits, op, checked)
    requires Own(p, op) ==> limits.daily <= bound && OtherDaysFit(p, ops, limits, op, checked)
    ensures Safe(p, ops + [op], bound)
  {
    forall day ensures Sum(WorstAt(p, day), ops + [op]) <= bound {
      SumAppend(WorstAt(p, day), ops, op);
      if Own(p, op) && Day(op.updatedAt) <= day { OtherDayCovered(p, ops, limits, op, checked, day); }
    }
  }

  /** Under one limit, where no future passed it before, storing an own preparation keeps that exactly when its amount
      also fits the other days it could complete on. */
  lemma PreparationIsSafeIff(p: Policy, ops: seq<Operation>, limits: Policy, op: Operation, checked: int)
    requires NeverPasses(p, ops, limits.daily) && Stores(p, ops, limits, op, checked) && Own(p, op)
    ensures NeverPasses(p, Next(p, ops, Prepare(limits, op, checked)), limits.daily) <==>
      OtherDaysFit(p, ops, limits, op, checked)
  {
    NeverPassesIffSafe(p, ops, limits.daily);
    NeverPassesIffSafe(p, ops + [op], limits.daily);
    if OtherDaysFit(p, ops, limits, op, checked) { StoreKeepsSafe(p, ops, limits, op, checked, limits.daily); }
    if Safe(p, ops + [op], limits.daily) {
      forall i | 0 <= i < |ops| && Own(p, ops[i]) && ops[i].terminal && ops[i].completed
        && Day(op.updatedAt) <= Day(ops[i].updatedAt) != Day(checked)
        ensures Sum(WorstAt(p, Day(ops[i].updatedAt)), ops) + op.amount <= limits.daily
      {
        SumAppend(WorstAt(p, Day(ops[i].updatedAt)), ops, op);
      }
    }
  }

  /** A clock that has not gone back behind any completion, nor between the check and the record, always meets the
      condition. */
  lemma ForwardClockIsSafe(p: Policy, ops: seq<Operation>, limits: Policy, op: Operation, checked: int)
    requires checked <= op.updatedAt
    requires forall i ::
      0 <= i < |ops| && Own(p, ops[i]) && ops[i].terminal && ops[i].completed ==> ops[i].updatedAt <= checked
    ensures OtherDaysFit(p, ops, limits, op, checked)
  {
    DayMonotone(checked, op.updatedAt);
    forall i | 0 <= i < |ops| && Own(p, ops[i]) && ops[i].terminal && ops[i].completed
      ensures Day(ops[i].updatedAt) <= Day(checked)
    {
      DayMonotone(ops[i].updatedAt, checked);
    }
  }

  // ---------------------------------------------------------------- the daily principal cap

  /** Each own preparation stored in the run was within a limit of at most `bound` and fitted the other days. */
  ghost predicate Guarded(p: Policy, events: seq<Event>, bound: nat) {
    forall n :: 0 <= n < |events| ==> GuardedAt(p, Run(p, [], events[..n]), events[n], bound)
  }

  ghost predicate GuardedAt(p: Policy, ops: seq<Operation>, e: Event, bound: nat) {
    e.Prepare? && Own(p, e.op) && Stores(p, ops, e.limits, e.op, e.checked) ==>
      e.limits.daily <= bound && OtherDaysFit(p, ops, e.limits, e.op, e.checked)
  }

  lemma {:induction false} GuardedRunKeepsSafe(p: Policy, events: seq<Event>, bound: nat)
    requires Guarded(p, events, bound)
    ensures Safe(p, Run(p, [], events), bound)
    decreases |events|
  {
    if events != [] {
      var before, e := events[..|events| - 1], events[|events| - 1];
      forall n | 0 <= n < |before| ensures GuardedAt(p, Run(p, [], before[..n]), before[n], bound) {
        assert before[..n] == events[..n] && GuardedAt(p, Run(p, [], events[..n]), events[n], bound);
      }
      GuardedRunKeepsSafe(p, before, bound);
      var ops := Run(p, [], before);
      assert GuardedAt(p, ops, e, bound);
      if !e.Prepare? {
        MoveKeepsSafe(p, ops, e, bound);
      } else if Stores(p, ops, e.limits, e.op, e.checked) {
        StoreKeepsSafe(p, ops, e.limits, e.op, e.checked, bound);
      }
    }
  }

  /** Over every guarded run, whatever the clocks read, no UTC day completes more principal than the largest limit in
      force. */
  lemma CompletedWithinDailyLimit(p: Policy, events: seq<Event>, bound: nat, day: int)
    requires Guarded(p, events, bound)
    ensures Sum(CompletedAt(p, day), Run(p, [], events)) <= bound
  {
    GuardedRunKeepsSafe(p, events, bound);
    CompletedWithinWorst(p, Run(p, [], events), day);
  }

  // ---------------------------------------------------------------- without the guard

  function Transfer(id: string, at: int): Operation {
    Operation(id, "p", "solana", "me", "usdc", 5, 0, "me", false, false, at, None)
  }

  function Done(id: string, at: int): Operation { Transfer(id, at).(terminal := true, completed := true) }

  const LIMITS := Policy("p", "solana", "usdc", 5, 5)

  lemma RunNext(p: Policy, ops: seq<Operation>, events: seq<Event>, e: Event)
    ensures Run(p, ops, events + [e]) == Next(p, Run(p, ops, events), e)
  {
    assert (events + [e])[..|events|] == events;
  }

  lemma SumOne(m: Measure, op: Operation)
    ensures Sum(m, [op]) == Weight(m, op)
  {
    SumAppend(m, [], op);
    assert [] + [op] == [op];
  }

  function SetBack(at: int): seq<Event> {
    [Prepare(LIMITS, Transfer("a", at), at), Finish(0, true, at, None)] + [Prepare(LIMITS, Transfer("b", 0), 0)] +
      [Finish(1, true, at, None)]
  }

  lemma FirstTransfer(p: Policy, at: int)
    requires p == LIMITS
    ensures Run(p, [], [Prepare(p, Transfer("a", at), at), Finish(0, true, at, None)]) == [Done("a", at)]
  {
    var a := Transfer("a", at);
    RunNext(p, [], [], Prepare(p, a, at));
    assert [] + [Prepare(p, a, at)] == [Prepare(p, a, at)] && [] + [a] == [a];
    assert Sum(PrincipalAt(p, Day(at), Some("a")), []) == 0;
    assert Stores(p, [], p, a, at);
    RunNext(p, [], [Prepare(p, a, at)], Finish(0, true, at, None));
    assert [Prepare(p, a, at)] + [Finish(0, true, at, None)] == [Prepare(p, a, at), Finish(0, true, at, None)];
    assert [a][0 := Done("a", at)] == [Done("a", at)];
  }

  lemma SecondTransfer(p: Policy, at: int)
    requires p == LIMITS && Day(at) != Day(0) && 0 <= at
    ensures Fits(p, [Done("a", at)], 5, 0, Some("b")) && Fits(p, [Done("a", at), Transfer("b", 0)], 5, 0, Some("b"))
    ensures Next(p, Next(p, [Done("a", at)], Prepare(p, Transfer("b", 0), 0)), Finish(1, true, at, None)) ==
      [Done("a", at), Done("b", at)]
  {
    var a, b := Done("a", at), Transfer("b", 0);
    SumOne(PrincipalAt(p, Day(0), Some("b")), a);
    assert [a] + [b] == [a, b];
    SumAppend(PrincipalAt(p, Day(0), Some("b")), [a], b);
    assert Stores(p, [a], p, b, 0);
    assert Next(p, [a], Prepare(p, b, 0)) == [a, b];
    assert [a, b][1 := Done("b", at)] == [a, Done("b", at)];
  }

  /** Set the clock back for one preparation, and its check misses the completion dated later: twice the limit completes
      on one day. The shared ledger's stamps never run backwards, so its cap needs no such guard. */
  lemma BackwardClockPassesTheLimit(at: int)
    requires at >= MS_PER_DAY
    ensures Sum(CompletedAt(LIMITS, Day(at)), Run(LIMITS, [], SetBack(at))) == 10 > LIMITS.daily
    ensures !OtherDaysFit(LIMITS, Run(LIMITS, [], SetBack(at)[..2]), LIMITS, Transfer("b", 0), 0)
  {
    var a, b, p := Done("a", at), Transfer("b", 0), LIMITS;
    var two := [Prepare(p, Transfer("a", at), at), Finish(0, true, at, None)];
    assert SetBack(at)[..2] == two && SetBack(at) == two + [Prepare(p, b, 0)] + [Finish(1, true, at, None)];
    FirstTransfer(p, at);
    SecondTransfer(p, at);
    RunNext(p, [], two, Prepare(p, b, 0));
    RunNext(p, [], two + [Prepare(p, b, 0)], Finish(1, true, at, None));
    assert [a] + [Done("b", at)] == [a, Done("b", at)];
    SumOne(CompletedAt(p, Day(at)), a);
    SumAppend(CompletedAt(p, Day(at)), [a], Done("b", at));
    SumOne(WorstAt(p, Day(at)), a);
    assert [a][0] == a && Own(p, a);
  }
}
