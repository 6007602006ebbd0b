/** The exact boundary of the daily cap: without the x402 owner-cap path no day passes the owner's limit, and with one
    such payment any limit can be passed, even after a policy reserve has filled it. */
module OwnerCapBoundary {
  import opened Basics
  import AP = AssetPolicy
  import opened UsageRecord
  import opened UsageBucket
  import opened UsageBucketProofs

  // ---------------------------------------------------------------- a policy of one limit

  const ETHER := AP.Native

  /** Ether on Base, direct transfers up to a limit a day. */
  function LimitRow(limit: nat): AP.Row {
    AP.Row(ETHER, None, "ETH", 18, {AP.Direct}, None, Some(map[AP.Direct := AP.AtomicCaps(limit, limit)]),
           map[], None, None, None, map[])
  }

  function LimitBody(limit: nat): AP.RegistryBody {
    AP.RegistryBody(AP.V2, "v1", 0, 0, None, None, [AP.Chain(AP.BASE_CHAIN, AP.Evm, "Base", [LimitRow(limit)])])
  }

  function LimitRegistry(limit: nat): AP.Registry { AP.Registry(LimitBody(limit), AP.PolicyDigest(LimitBody(limit))) }

  lemma LimitRowIsValid(codec: AP.Codec, limit: nat)
    requires 1 <= limit <= MAX_UINT256
    ensures AP.ValidRow(codec, AP.Evm, AP.V2, LimitRow(limit)) && AP.ValidRowOnChain(AP.BASE_CHAIN, LimitRow(limit))
  {
  }

  lemma LimitIsValid(codec: AP.Codec, limit: nat)
    requires 1 <= limit <= MAX_UINT256 && codec.chainCanonical(AP.Evm, AP.BASE_CHAIN)
    ensures AP.ValidRegistry(codec, LimitRegistry(limit)) && AP.DailyWithin(LimitBody(limit), limit)
  {
    LimitRowIsValid(codec, limit);
    assert AP.IsVersion("v1") && AP.IsNetworkName("Base");
    assert AP.ValidChain(codec, AP.V2, LimitBody(limit).chains[0]);
  }

  function LimitRequest(limit: nat): AP.Request {
    AP.Request(AP.BASE_CHAIN, ETHER, None, AP.Direct, None, limit, 0, 0, Some(0))
  }

  /** The whole limit is admitted on an unused day. */
  lemma LimitIsAdmitted(codec: AP.Codec, limit: nat)
    requires 1 <= limit <= MAX_UINT256 && codec.chainCanonical(AP.Evm, AP.BASE_CHAIN)
    ensures AP.Evaluate(codec, LimitRegistry(limit), LimitRequest(limit)) ==
      Ok(AP.Admission(AP.PolicyDigest(LimitBody(limit)), "v1", AP.BASE_CHAIN, AP.Evm, LimitRow(limit), AP.Direct,
                      AP.AtomicCaps(limit, limit), limit, 0, 0))
  {
    LimitIsValid(codec, limit);
    var chain := AP.Chain(AP.BASE_CHAIN, AP.Evm, "Base", [LimitRow(limit)]);
    assert AP.FindChain([chain], AP.BASE_CHAIN) == Some(chain);
    assert AP.FindRow([LimitRow(limit)], ETHER, None) == Some(LimitRow(limit));
    assert Day(0) == 0;
  }

  // ---------------------------------------------------------------- single steps

  function Bucket(account: string): Identity { Identity(account, AP.BASE_CHAIN, ETHER, None) }

  function FillInput(account: string, limit: nat): ReserveInput {
    ReserveInput(account, AP.BASE_CHAIN, ETHER, None, LimitRegistry(limit), AP.Direct, None, limit, "transfer-1", 0,
                 false)
  }

  function PayInput(account: string, amount: nat): OwnerCapInput {
    OwnerCapInput(Bucket(account), AP.X402, amount, amount, AP.PolicyDigest(LimitBody(1)), "v1", "payment-1", 0)
  }

  function FillHold(account: string, limit: nat): Reservation {
    NewHold(ReservationId(Bucket(account), "transfer-1"), AP.PolicyDigest(LimitBody(limit)), "v1", AP.Direct, limit, 0)
  }

  function PayHold(account: string, amount: nat): Reservation {
    NewHold(ReservationId(Bucket(account), "payment-1"), AP.PolicyDigest(LimitBody(1)), "v1", AP.X402, amount, 0)
  }

  function Paid(hold: Reservation): Reservation {
    hold.(state := Finalized, effectAt := Some(hold.updatedAt), outcome := Some(Evidence("paid")))
  }

  function Settle(hold: Reservation): Command {
    TransitionCommand(TransitionInput(hold.id, hold.policyDigest, Finalized, hold.updatedAt, Some(Evidence("paid")),
                                      None, None, None))
  }

  /** A policy reserve of the whole limit fills an empty bucket. */
  lemma Fills(codec: AP.Codec, account: string, limit: nat)
    requires 1 <= limit <= MAX_UINT256 && codec.chainCanonical(AP.Evm, AP.BASE_CHAIN)
      && codec.account(AP.BASE_CHAIN, account)
    ensures Step(codec, Bucket(account), EMPTY, ReserveCommand(FillInput(account, limit))) ==
      BucketState([FillHold(account, limit)], limit, 0)
  {
    var input, hold := FillInput(account, limit), FillHold(account, limit);
    LimitIsAdmitted(codec, limit);
    assert PolicyRequest(input, 0) == LimitRequest(limit) by { assert Day(0) == 0; }
    assert IsIdempotencyKey("transfer-1") && !HasPrefix("transfer-1", METAMASK_NAMESPACE)
      && !HasPrefix("transfer-1", CLEANUP_NAMESPACE) by {
      assert "transfer-1"[0] != METAMASK_NAMESPACE[0];
    }
    var initial := AP.Evaluate(codec, LimitRegistry(limit), LimitRequest(limit)).value;
    assert ReserveTarget(codec, input) == Ok((hold.id, initial));
    FillsRows(codec, account, limit, initial);
  }

  lemma FillsRows(codec: AP.Codec, account: string, limit: nat, initial: AP.Admission)
    requires 1 <= limit <= MAX_UINT256 && AP.Evaluate(codec, LimitRegistry(limit), LimitRequest(limit)) == Ok(initial)
    requires initial.policyDigest == AP.PolicyDigest(LimitBody(limit)) && initial.registryVersion == "v1"
      && initial.rail == AP.Direct
    requires initial.amount == limit && initial.caps.daily == limit
    ensures var input, hold := FillInput(account, limit), FillHold(account, limit);
      Reserve(codec, [], hold.id, initial, input) == Ok(Applied([hold], hold, limit, 0))
  {
    var input, hold := FillInput(account, limit), FillHold(account, limit);
    assert Day(0) == 0 && Usage([], 0) == 0 && UsageResult([], 0) == Ok(0);
    assert CheckDay(codec, [], hold.id, input) == Ok(initial);
    assert BucketStamp([], 0) == 0 && AP.IsVersion("v1") && Seal(hold) == Ok(hold);
    assert [] + [hold] == [hold];
  }

  /** An owner-cap payment is held beside any rows, unchecked. */
  lemma Pays(codec: AP.Codec, account: string, amount: nat, s: BucketState)
    requires 1 <= amount <= MAX_UINT256 && Find(s.rows, PayHold(account, amount).id).None?
      && BucketStamp(s.rows, 0) == 0
    ensures Step(codec, Bucket(account), s, OwnerCapCommand(PayInput(account, amount))) ==
      BucketState(s.rows + [PayHold(account, amount)], s.cap, s.unchecked + amount)
  {
    var hold := PayHold(account, amount);
    assert IsIdempotencyKey("payment-1") && AP.IsVersion("v1") && Seal(hold) == Ok(hold);
    assert ReserveWithinOwnerCap(s.rows, PayInput(account, amount)) == Ok(Applied(s.rows + [hold], hold, 0, amount));
  }

  /** The newest hold of a bucket is finalized at its own instant. */
  lemma Settles(codec: AP.Codec, hold: Reservation, before: Rows, s: BucketState)
    requires s.rows == before + [hold] && hold.state == Reserved && ValidReservation(hold) && hold.consumed.None?
      && hold.actualFee.None?
    requires BucketStamp(before + [hold], hold.updatedAt) == hold.updatedAt
    ensures Step(codec, hold.id.identity, s, Settle(hold)) == s.(rows := before + [Paid(hold)])
  {
    var input := Settle(hold).transition;
    assert FindIndex(before + [hold], hold.id) == Some(|before|);
    assert Moved(hold, input, hold.updatedAt) == Paid(hold);
    assert TransitionRow(before + [hold], |before|, input) ==
      Ok(Applied((before + [hold])[|before| := Paid(hold)], Paid(hold), 0, 0));
    assert (before + [hold])[|before| := Paid(hold)] == before + [Paid(hold)];
  }

  lemma StampOfOne(r: Reservation)
    requires r.updatedAt == 0
    ensures BucketStamp([r], 0) == 0
  {
    assert [r][..0] == [];
  }

  lemma StampOfTwo(q: Reservation, r: Reservation)
    requires q.updatedAt == r.updatedAt == 0
    ensures BucketStamp([q] + [r], 0) == 0
  {
    StampOfOne(q);
    assert ([q] + [r])[..1] == [q];
  }

  // ---------------------------------------------------------------- the boundary

  function FillSpend(account: string, limit: nat): seq<Command> {
    if limit == 0 then [] else [ReserveCommand(FillInput(account, limit)), Settle(FillHold(account, limit))]
  }

  function PaySpend(account: string): seq<Command> {
    [OwnerCapCommand(PayInput(account, 1)), Settle(PayHold(account, 1))]
  }

  lemma {:induction false} RunAppend(codec: AP.Codec, identity: Identity, s: BucketState, cs: seq<Command>,
                                     ds: seq<Command>)
    ensures Run(codec, identity, s, cs + ds) == Run(codec, identity, Run(codec, identity, s, cs), ds)
    decreases |cs|
  {
    if cs == [] {
      assert cs + ds == ds;
    } else {
      assert (cs + ds)[0] == cs[0] && (cs + ds)[1..] == cs[1..] + ds;
      RunAppend(codec, identity, Step(codec, identity, s, cs[0]), cs[1..], ds);
    }
  }

  lemma RunTwo(codec: AP.Codec, identity: Identity, s: BucketState, c: Command, d: Command)
    ensures Run(codec, identity, s, [c, d]) == Step(codec, identity, Step(codec, identity, s, c), d)
  {
    assert [c, d][1..] == [d] && [d][1..] == [];
    assert Run(codec, identity, s, [c, d]) == Run(codec, identity, Step(codec, identity, s, c), [d]);
  }

  /** The limit's own reserve, checked against the day, spends exactly the limit. */
  lemma FilledState(codec: AP.Codec, account: string, limit: nat)
    requires 1 <= limit <= MAX_UINT256 && codec.chainCanonical(AP.Evm, AP.BASE_CHAIN)
      && codec.account(AP.BASE_CHAIN, account)
    ensures Run(codec, Bucket(account), EMPTY, FillSpend(account, limit)) ==
      BucketState([Paid(FillHold(account, limit))], limit, 0)
  {
    var hold := FillHold(account, limit);
    Fills(codec, account, limit);
    StampOfOne(hold);
    assert AP.IsVersion("v1") && [] + [hold] == [hold] && [] + [Paid(hold)] == [Paid(hold)];
    Settles(codec, hold, [], BucketState([hold], limit, 0));
    RunTwo(codec, Bucket(account), EMPTY, ReserveCommand(FillInput(account, limit)), Settle(hold));
  }

  lemma PaidState(codec: AP.Codec, account: string, s: BucketState)
    requires Find(s.rows, PayHold(account, 1).id).None? && BucketStamp(s.rows, 0) == 0
      && BucketStamp(s.rows + [PayHold(account, 1)], 0) == 0
    ensures Run(codec, Bucket(account), s, PaySpend(account)) ==
      BucketState(s.rows + [Paid(PayHold(account, 1))], s.cap, s.unchecked + 1)
  {
    var hold := PayHold(account, 1);
    Pays(codec, account, 1, s);
    assert AP.IsVersion("v1");
    Settles(codec, hold, s.rows, BucketState(s.rows + [hold], s.cap, s.unchecked + 1));
    RunTwo(codec, Bucket(account), s, OwnerCapCommand(PayInput(account, 1)), Settle(hold));
  }

  /** Every reserve of the run presents a policy within the limit, and it makes one owner-cap payment. */
  ghost predicate OnePaymentBesides(cs: seq<Command>, limit: nat, n: nat) {
    n < |cs| && cs[n].OwnerCapCommand? && Bounded(cs[..n] + cs[n + 1..], limit)
  }

  lemma SpendOfTwo(q: Reservation, r: Reservation)
    requires q.state == r.state == Finalized && q.effectAt == r.effectAt == Some(0) && q.actualFee.None?
      && r.actualFee.None?
    ensures Total(SpendAt(0), [q] + [r]) == q.amount + r.amount && Total(SpendAt(0), [r]) == r.amount
  {
    assert Day(0) == 0 && [] + [q] == [q] && [] + [r] == [r];
    TotalAppend(SpendAt(0), [], q);
    TotalAppend(SpendAt(0), [], r);
    TotalAppend(SpendAt(0), [q], r);
  }

  lemma PassedFromNothing(codec: AP.Codec, account: string)
    ensures var s := Run(codec, Bucket(account), EMPTY, PaySpend(account));
      s.cap == 0 && s.unchecked == 1 && Total(SpendAt(0), s.rows) == 1
  {
    var pay := PayHold(account, 1);
    StampOfOne(pay);
    assert [] + [pay] == [pay] && [] + [Paid(pay)] == [Paid(pay)] && BucketStamp([], 0) == 0;
    PaidState(codec, account, EMPTY);
    SpendOfTwo(Paid(pay), Paid(pay));
  }

  lemma PassedFromFull(codec: AP.Codec, account: string, limit: nat)
    ensures var s :=
      Run(codec, Bucket(account), BucketState([Paid(FillHold(account, limit))], limit, 0), PaySpend(account));
      s.cap == limit && s.unchecked == 1 && Total(SpendAt(0), s.rows) == limit + 1
  {
    var fill, pay := Paid(FillHold(account, limit)), PayHold(account, 1);
    StampOfOne(fill);
    StampOfTwo(fill, pay);
    OtherKey(account, limit);
    PaidState(codec, account, BucketState([fill], limit, 0));
    SpendOfTwo(fill, Paid(pay));
  }

  /** A reserve fills the limit to the last unit, every check passes, and one owner-cap payment of one unit goes beyond
      it. */
  lemma FilledAndPassed(codec: AP.Codec, account: string, limit: nat)
    requires limit < MAX_UINT256 && codec.chainCanonical(AP.Evm, AP.BASE_CHAIN) && codec.account(AP.BASE_CHAIN, account)
    ensures var s := Run(codec, Bucket(account), EMPTY, FillSpend(account, limit) + PaySpend(account));
      s.cap == limit && s.unchecked == 1 && Total(SpendAt(0), s.rows) == limit + 1
  {
    if limit == 0 {
      assert FillSpend(account, limit) + PaySpend(account) == PaySpend(account);
      PassedFromNothing(codec, account);
    } else {
      RunAppend(codec, Bucket(account), EMPTY, FillSpend(account, limit), PaySpend(account));
      FilledState(codec, account, limit);
      PassedFromFull(codec, account, limit);
    }
  }

  lemma OtherKey(account: string, limit: nat)
    ensures Find([Paid(FillHold(account, limit))], PayHold(account, 1).id).None?
  {
    assert "transfer-1"[0] != "payment-1"[0];
    assert [Paid(FillHold(account, limit))][..0] == [];
  }

  lemma OnePaymentOnly(codec: AP.Codec, account: string, limit: nat)
    requires limit <= MAX_UINT256 && codec.chainCanonical(AP.Evm, AP.BASE_CHAIN)
    ensures OnePaymentBesides(FillSpend(account, limit) + PaySpend(account), limit, |FillSpend(account, limit)|)
  {
    if limit > 0 { LimitIsValid(codec, limit); }
  }

  /** For every limit: no run without an owner-cap command passes it on any day, and some run with one such command
      does. */
  lemma OwnerCapIsTheBoundary(codec: AP.Codec, account: string, limit: nat)
    requires limit < MAX_UINT256 && codec.chainCanonical(AP.Evm, AP.BASE_CHAIN) && codec.account(AP.BASE_CHAIN, account)
    ensures forall identity, cs, day | Bounded(cs, limit) ::
      Total(SpendAt(day), Run(codec, identity, EMPTY, cs).rows) <= limit
    ensures exists identity, cs, n, day ::
      OnePaymentBesides(cs, limit, n) && Total(SpendAt(day), Run(codec, identity, EMPTY, cs).rows) > limit
  {
    forall identity, cs, day | Bounded(cs, limit)
      ensures Total(SpendAt(day), Run(codec, identity, EMPTY, cs).rows) <= limit
    {
      DailySpendWithinOwnerLimit(codec, identity, cs, limit, day);
    }
    FilledAndPassed(codec, account, limit);
    OnePaymentOnly(codec, account, limit);
  }
}
