/** One usage reservation: its stored form, its state machine, its stamp and what it charges to a day. */
module UsageRecord {
  import opened Basics
  import AP = AssetPolicy

  datatype Identity = Identity(account: string, chain: string, kind: AP.Kind, identifier: Option<string>)

  /** The digest of identity and idempotency key, taken to be injective. */
  datatype ReservationId = ReservationId(identity: Identity, key: string)

  datatype FeeProof = FeeProof(operationId: string, actualFee: nat, reservedFee: nat)

  /** A terminal proof digest: the owning rail's evidence, or the hash of a fee proof. */
  datatype Outcome = Evidence(digest: string) | FeeProofHash(proof: FeeProof)

  datatype State =
    | Reserved | Submitted | UnknownFinality
    | Finalized | FailedBeforeEffect | ReleasedUnsubmitted | FailedConfirmedRevert

  type TargetState = s: State | s != Reserved witness Submitted

  datatype Reservation = Reservation(
    id: ReservationId,
    policyDigest: AP.Digest,
    registryVersion: string,
    rail: AP.Rail,
    amount: nat,
    consumed: Option<nat>,
    actualFee: Option<FeeProof>,
    state: State,
    reservedAt: int,
    updatedAt: int,
    effectAt: Option<int>,
    outcome: Option<Outcome>)

  const MERCHANT_NAMESPACE := "apn.merchant-native:"

  predicate Open(s: State) { s in {Reserved, Submitted, UnknownFinality} }

  predicate Terminal(s: State) { !Open(s) }

  // ---------------------------------------------------------------- the stored row's own rules

  predicate ValidConsumption(r: Reservation) {
    r.consumed.Some? ==> (r.state == FailedConfirmedRevert || r.actualFee.Some?) && r.consumed.value <= r.amount
  }

  predicate ValidFeeProof(r: Reservation) {
    r.actualFee.Some? ==>
      && r.state == Finalized && r.rail == AP.X402
      && r.id.identity.kind == AP.Native && r.id.key == MERCHANT_NAMESPACE + r.actualFee.value.operationId
      && r.actualFee.value.reservedFee == r.amount
      && r.consumed == Some(r.actualFee.value.actualFee)
      && r.outcome == Some(FeeProofHash(r.actualFee.value))
  }

  predicate ValidTimes(r: Reservation) {
    && r.reservedAt <= r.updatedAt
    && match r.state
       case Finalized => r.effectAt.Some? && r.reservedAt <= r.effectAt.value <= r.updatedAt && r.outcome.Some?
       case FailedConfirmedRevert =>
         r.effectAt == (if r.consumed.Some? then Some(r.updatedAt) else None) && r.outcome.Some?
       case FailedBeforeEffect => r.effectAt.None? && r.outcome.Some?
       case ReleasedUnsubmitted => r.effectAt.None? && r.outcome.Some?
       case _ => r.effectAt.None? && r.outcome.None?
  }

  predicate ValidReservation(r: Reservation) {
    && AP.IsVersion(r.registryVersion)
    && 0 < r.amount <= MAX_UINT256
    && ValidConsumption(r) && ValidFeeProof(r) && ValidTimes(r)
  }

  /** `seal`: a row that fails its own validator is never written. */
  function Seal(r: Reservation): (s: Result<Reservation>)
    ensures s.Ok? <==> ValidReservation(r)
    ensures s.Ok? ==> s.value == r
  {
    if ValidReservation(r) then Ok(r) else Err(StateCorrupt)
  }

  /** Keys of 8 to 256 visible ASCII characters. */
  predicate IsIdempotencyKey(key: string) {
    8 <= |key| <= 256 && forall i :: 0 <= i < |key| ==> '!' <= key[i] <= '~'
  }

  predicate HasPrefix(s: string, prefix: string) { prefix <= s }

  // ---------------------------------------------------------------- transitions, replay, stamps

  predicate Allowed(from: State, to: State) {
    match from
    case Reserved => to in {Submitted, UnknownFinality, Finalized, FailedBeforeEffect, ReleasedUnsubmitted}
    case Submitted => to in {UnknownFinality, Finalized, FailedConfirmedRevert}
    case UnknownFinality => to in {Finalized, FailedConfirmedRevert, ReleasedUnsubmitted}
    case _ => false
  }

  predicate IsReplay(r: Reservation, policyDigest: AP.Digest, version: string, rail: AP.Rail, amount: nat) {
    r.policyDigest == policyDigest && r.registryVersion == version && r.rail == rail && r.amount == amount
  }

  /** The clock, but never earlier than the newest stamp in the bucket. */
  function BucketStamp(rows: seq<Reservation>, now: int): (at: int)
    ensures now <= at
    ensures forall i :: 0 <= i < |rows| ==> rows[i].updatedAt <= at
  {
    if rows == [] then now
    else
      var rest := BucketStamp(rows[..|rows| - 1], now);
      var last := rows[|rows| - 1];
      if last.updatedAt > rest then last.updatedAt else rest
  }

  /** A stamp is never invented: it is the clock or one already stored. */
  lemma {:induction false} StampIsClockOrStored(rows: seq<Reservation>, now: int)
    ensures BucketStamp(rows, now) == now || exists i :: 0 <= i < |rows| && rows[i].updatedAt == BucketStamp(rows, now)
    decreases |rows|
  {
    if rows != [] { StampIsClockOrStored(rows[..|rows| - 1], now); }
  }

  function Distance(a: int, b: int): nat { if a < b then b - a else a - b }

  /** The stored effect time: the instant nearest to the proven one that is not before the hold's last write and not
      after this one; this one when none is proven. */
  function ClampEffect(proven: Option<int>, lastWrite: int, at: int): (e: int)
    requires lastWrite <= at
    ensures lastWrite <= e <= at
    ensures proven.Some? ==> forall x :: lastWrite <= x <= at ==> Distance(e, proven.value) <= Distance(x, proven.value)
    ensures proven.None? ==> e == at
  {
    if proven.None? then at
    else if proven.value < lastWrite then lastWrite
    else if proven.value > at then at
    else proven.value
  }

  // ---------------------------------------------------------------- charges

  /** What a settled row finally spent: the proven consumption, or the whole amount of an ordinary finalization. */
  function Spent(r: Reservation): nat {
    match r.state
    case Finalized => if r.actualFee.Some? && r.consumed.Some? then r.consumed.value else r.amount
    case FailedConfirmedRevert => if r.consumed.Some? then r.consumed.value else 0
    case _ => 0
  }

  /** What `sumUsage` adds for one row when the clock reads a given day. */
  function Charge(r: Reservation, day: int): nat {
    if Open(r.state) then r.amount
    else if r.effectAt.Some? && Day(r.effectAt.value) >= day then Spent(r)
    else 0
  }

  /** A row's claim on one day's cap: spent on that day, or still open and last written by the end of it. */
  function Exposure(r: Reservation, day: int): nat {
    if Open(r.state) then (if Day(r.updatedAt) <= day then r.amount else 0)
    else if r.effectAt.Some? && Day(r.effectAt.value) == day then Spent(r)
    else 0
  }

  /** What was spent on exactly one day. */
  function SpentOn(r: Reservation, day: int): nat {
    if r.effectAt.Some? && Day(r.effectAt.value) == day then Spent(r) else 0
  }

  datatype Measure = UsageAt(day: int) | ExposureAt(day: int) | SpendAt(day: int)

  function Weight(m: Measure, r: Reservation): nat {
    match m
    case UsageAt(day) => Charge(r, day)
    case ExposureAt(day) => Exposure(r, day)
    case SpendAt(day) => SpentOn(r, day)
  }

  function Total(m: Measure, rows: seq<Reservation>): nat {
    if rows == [] then 0 else Total(m, rows[..|rows| - 1]) + Weight(m, rows[|rows| - 1])
  }

  function Usage(rows: seq<Reservation>, day: int): nat { Total(UsageAt(day), rows) }

  /** `sumUsage`: skip released and past rows, add the rest, refuse a total above uint256. */
  method SumUsage(rows: seq<Reservation>, now: int) returns (usage: Result<nat>)
    requires forall i :: 0 <= i < |rows| ==> ValidReservation(rows[i])
    ensures usage == UsageResult(rows, now)
  {
    var day, total, i := Day(now), 0, 0;
    while i < |rows|
      invariant 0 <= i <= |rows|
      invariant total == Total(UsageAt(day), rows[..i])
      invariant total <= MAX_UINT256
    {
      var r := rows[i];
      assert rows[..i + 1][..i] == rows[..i];
      TotalOfPrefix(UsageAt(day), rows, i + 1);
      i := i + 1;
      if r.state == FailedBeforeEffect || r.state == ReleasedUnsubmitted { continue; }
      if r.state == FailedConfirmedRevert && r.consumed.None? { continue; }
      if r.state == Finalized && Day(r.effectAt.value) < day { continue; }
      if r.state == FailedConfirmedRevert && Day(r.effectAt.value) < day { continue; }
      total := total + (if r.state == FailedConfirmedRevert || r.actualFee.Some? then r.consumed.value else r.amount);
      if total > MAX_UINT256 { return Err(StateCorrupt); }
    }
    assert rows[..i] == rows;
    return Ok(total);
  }

  function UsageResult(rows: seq<Reservation>, now: int): Result<nat> {
    var total := Usage(rows, Day(now));
    if total > MAX_UINT256 then Err(StateCorrupt) else Ok(total)
  }

  // ---------------------------------------------------------------- sums over a bucket

  lemma {:induction false} TotalOfPrefix(m: Measure, rows: seq<Reservation>, i: nat)
    requires i <= |rows|
    ensures Total(m, rows[..i]) <= Total(m, rows)
    decreases |rows|
  {
    if i < |rows| {
      var front := rows[..|rows| - 1];
      assert front[..i] == rows[..i];
      TotalOfPrefix(m, front, i);
    } else {
      assert rows[..i] == rows;
    }
  }

  lemma TotalAppend(m: Measure, rows: seq<Reservation>, r: Reservation)
    ensures Total(m, rows + [r]) == Total(m, rows) + Weight(m, r)
  {
    assert (rows + [r])[..|rows|] == rows;
  }

  /** Rewriting one row changes a total by exactly the change of that row's weight. */
  lemma {:induction false} TotalUpdate(m: Measure, rows: seq<Reservation>, i: nat, r: Reservation)
    requires i < |rows|
    ensures Total(m, rows[i := r]) + Weight(m, rows[i]) == Total(m, rows) + Weight(m, r)
    decreases |rows|
  {
    var n := |rows| - 1;
    if i == n {
      assert rows[i := r][..n] == rows[..n];
    } else {
      assert rows[i := r][..n] == rows[..n][i := r];
      TotalUpdate(m, rows[..n], i, r);
    }
  }

  /** A measure that is below another on every row is below it in total. */
  lemma {:induction false} TotalBelow(small: Measure, large: Measure, rows: seq<Reservation>)
    requires forall i :: 0 <= i < |rows| ==> Weight(small, rows[i]) <= Weight(large, rows[i])
    ensures Total(small, rows) <= Total(large, rows)
    decreases |rows|
  {
    if rows != [] {
      TotalBelow(small, large, rows[..|rows| - 1]);
    }
  }

  /** Usage never grows as the day of the clock grows. */
  lemma UsageAntitoneInDay(rows: seq<Reservation>, earlier: int, later: int)
    requires earlier <= later
    ensures Usage(rows, later) <= Usage(rows, earlier)
  {
    TotalBelow(UsageAt(later), UsageAt(earlier), rows);
  }

  /** Removing one row lowers the usage by exactly that row's charge; an open hold charges its whole amount on every
      day. */
  lemma {:induction false} UsageWithoutRow(rows: seq<Reservation>, i: nat, day: int)
    requires i < |rows|
    ensures Usage(rows[..i] + rows[i + 1..], day) + Charge(rows[i], day) == Usage(rows, day)
    ensures Open(rows[i].state) ==> Charge(rows[i], day) == rows[i].amount
    decreases |rows|
  {
    var n := |rows| - 1;
    if i == n {
      assert rows[..i] + rows[i + 1..] == rows[..n];
    } else {
      var front := rows[..n];
      var rest := front[..i] + front[i + 1..];
      assert rows[..i] + rows[i + 1..] == rest + [rows[n]];
      UsageWithoutRow(front, i, day);
      TotalAppend(UsageAt(day), rest, rows[n]);
    }
  }

  /** One hold never exceeds the usage it is part of. */
  lemma HoldWithinUsage(rows: seq<Reservation>, i: nat, day: int)
    requires i < |rows|
    ensures Charge(rows[i], day) <= Usage(rows, day)
  {
    UsageWithoutRow(rows, i, day);
  }
}
