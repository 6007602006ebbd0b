/** The compiler from an owner's admission rows (one asset on one rail each) to a sealed registry. */
module PolicyCompiler {
  import opened Basics
  import opened AssetPolicy
  import opened RecipientPins

  const MAX_ADMISSIONS := 256
  const ALL_RAILS: set<Rail> := {Direct, Gasless, X402, Bridge, Swap}

  // ---------------------------------------------------------------- owner input

  datatype Alternatives = BridgeAlternatives(bridge: seq<BridgeOption>) | SwapAlternatives(swap: seq<SwapMechanism>)

  /** One owner-written row: an exact asset, one rail, its caps, and the rail's pinned mechanism or alternatives. */
  datatype OwnerRow = OwnerRow(
    chain: string, kind: Kind, identifier: Option<string>, rail: Rail,
    maximum: Option<nat>, daily: nat,
    mechanism: Option<MechanismPin>, alternatives: Option<Alternatives>,
    recipient: Option<string>, recipients: Option<seq<string>>)

  /** What the frozen inventory says about an asset. */
  datatype Candidate = Candidate(chain: string, kind: Kind, identifier: Option<string>, family: Family,
                                 networkName: string, symbol: string, decimals: int)

  /** The asset resolver, an abstract table here. */
  datatype Inventory = Inventory(resolve: OwnerRow -> Option<Candidate>)

  datatype Overlay = Overlay(version: string, accounts: map<Family, string>, effectiveAt: int, expiresAt: Option<int>,
                             rows: seq<OwnerRow>)

  datatype Key = Key(chain: string, kind: Kind, identifier: Option<string>)

  function KeyOf(c: Candidate): Key { Key(c.chain, c.kind, c.identifier) }

  function PolicyFamily(chain: string): Option<Family> {
    if "eip155:" <= chain then Some(Evm) else if "solana:" <= chain then Some(Solana)
    else if "tron:" <= chain then Some(Tron) else None
  }

  function MaximumOf(options: seq<BridgeOption>): nat {
    if options == [] then 0
    else
      var rest := MaximumOf(options[..|options| - 1]);
      if options[|options| - 1].maximum > rest then options[|options| - 1].maximum else rest
  }

  // ---------------------------------------------------------------- validateAllowlistAdmission

  predicate CapPair(maximum: nat, daily: nat) { 0 < maximum <= daily <= MAX_UINT256 }

  predicate AcceptedSwapAlternatives(codec: Codec, a: OwnerRow, routes: seq<SwapMechanism>) {
    && a.mechanism.None? && 2 <= |routes| <= MAX_ALTERNATIVES
    && (forall i :: 0 <= i < |routes| ==> codec.swapValid(routes[i]))
    && (forall i, j :: 0 <= i < j < |routes| ==> RouteOf(routes[i]) != RouteOf(routes[j]))
    && a.maximum.Some? && CapPair(a.maximum.value, a.daily)
    && a.recipient.None? && a.recipients.None?
  }

  predicate AcceptedBridgeAlternatives(codec: Codec, a: OwnerRow, options: seq<BridgeOption>) {
    && a.mechanism.None? && a.maximum.None? && 2 <= |options| <= MAX_ALTERNATIVES
    && (forall i :: 0 <= i < |options| ==> ValidBridgeOption(codec, options[i], MAX_UINT256))
    && (forall i, j :: 0 <= i < j < |options| ==> options[i].pin != options[j].pin)
    && CapPair(MaximumOf(options), a.daily)
    && a.recipient.None? && a.recipients.None?
  }

  predicate IsCoinbase(a: OwnerRow) {
    a.rail == Gasless && a.mechanism.Some? && a.mechanism.value.Provider?
      && a.mechanism.value.pin.provider == COINBASE_PROVIDER
  }

  /** A single gasless recipient: Ethereum or Base local, or Base Coinbase, one canonical EVM address. */
  predicate AcceptedRecipient(codec: Codec, a: OwnerRow) {
    && (a.recipient.Some? ==>
          && a.rail == Gasless && a.chain in [ETHEREUM_CHAIN, BASE_CHAIN]
          && a.mechanism.Some? && a.mechanism.value.Provider?
          && (a.mechanism.value.pin.provider == LOCAL_PROVIDER || (a.chain == BASE_CHAIN && IsCoinbase(a)))
          && codec.recipient(a.recipient.value) == Some(Recipient(Evm, a.recipient.value)))
    && (IsCoinbase(a) ==> a.chain == BASE_CHAIN && a.recipient.Some?)
  }

  predicate AcceptedSingle(codec: Codec, a: OwnerRow) {
    && a.maximum.Some? && CapPair(a.maximum.value, a.daily)
    && (if a.rail == Direct then a.mechanism.None? else a.mechanism.Some? && ValidPin(codec, a.rail, a.mechanism.value))
    && AcceptedRecipient(codec, a)
    && (a.recipients.Some? ==>
          IsPinRail(a.rail)
            && ValidRecipientPins(codec, a.recipients.value, if a.rail == Bridge then None else PolicyFamily(a.chain)))
  }

  predicate AcceptedRow(codec: Codec, a: OwnerRow) {
    match a.alternatives
    case None => AcceptedSingle(codec, a)
    case Some(SwapAlternatives(routes)) => a.rail == Swap && AcceptedSwapAlternatives(codec, a, routes)
    case Some(BridgeAlternatives(options)) => a.rail == Bridge && AcceptedBridgeAlternatives(codec, a, options)
  }

  // ---------------------------------------------------------------- overlayInput

  ghost predicate Resolved(inv: Inventory, rows: seq<OwnerRow>) {
    forall i :: 0 <= i < |rows| ==> inv.resolve(rows[i]).Some?
  }

  function Cand(inv: Inventory, a: OwnerRow): Candidate
    requires inv.resolve(a).Some?
  {
    inv.resolve(a).value
  }

  function RowKey(inv: Inventory, a: OwnerRow): Option<Key> {
    var c := inv.resolve(a);
    if c.Some? then Some(KeyOf(c.value)) else None
  }

  /** No two rows name one asset on one rail. */
  ghost predicate NoDuplicates(inv: Inventory, rows: seq<OwnerRow>) {
    forall i, j ::
      0 <= i < j < |rows| ==> !(RowKey(inv, rows[i]) == RowKey(inv, rows[j]) && rows[i].rail == rows[j].rail)
  }

  /** Every admitted swap mechanism is on the row's own network. */
  predicate SwapOnChain(a: OwnerRow, chain: string) {
    a.rail == Swap ==>
      match a.alternatives
      case Some(SwapAlternatives(routes)) => routes != [] && forall i :: 0 <= i < |routes| ==> routes[i].chain == chain
      case _ => a.mechanism.Some? && a.mechanism.value.SwapPin? && a.mechanism.value.swap.chain == chain
  }

  ghost predicate AcceptedRows(codec: Codec, inv: Inventory, rows: seq<OwnerRow>) {
    && (forall i :: 0 <= i < |rows| ==> AcceptedRow(codec, rows[i]))
    && Resolved(inv, rows)
    && NoDuplicates(inv, rows)
    && (forall i :: 0 <= i < |rows| ==> SwapOnChain(rows[i], Cand(inv, rows[i]).chain))
  }

  ghost function Families(inv: Inventory, rows: seq<OwnerRow>): set<Family>
    requires Resolved(inv, rows)
  {
    set i | 0 <= i < |rows| :: Cand(inv, rows[i]).family
  }

  ghost predicate Accepted(codec: Codec, inv: Inventory, o: Overlay) {
    && IsVersion(o.version)
    && (o.expiresAt.Some? ==> o.expiresAt.value > o.effectiveAt)
    && 1 <= |o.rows| <= MAX_ADMISSIONS
    && AcceptedRows(codec, inv, o.rows)
    && o.accounts.Keys == Families(inv, o.rows)
    && forall f | f in o.accounts :: codec.owner(f, o.accounts[f])
  }

  /** `overlayInput`: refuse unless every row is acceptable, resolved and single, and the accounts are exactly the
      families used. */
  method OverlayInput(codec: Codec, inv: Inventory, o: Overlay) returns (ok: bool)
    ensures ok <==> Accepted(codec, inv, o)
  {
    if !IsVersion(o.version) || (o.expiresAt.Some? && o.expiresAt.value <= o.effectiveAt) || |o.rows| == 0
      || |o.rows| > MAX_ADMISSIONS {
      return false;
    }
    var families: set<Family>, identities: set<(Key, Rail)>, i := {}, {}, 0;
    while i < |o.rows|
      invariant 0 <= i <= |o.rows| && AcceptedRows(codec, inv, o.rows[..i])
      invariant families == Families(inv, o.rows[..i])
      invariant forall k, r :: (k, r) in identities <==> exists j ::
        0 <= j < i && RowKey(inv, o.rows[j]) == Some(k) && o.rows[j].rail == r
    {
      var row := o.rows[i];
      if !AcceptedRow(codec, row) || inv.resolve(row).None? { return false; }
      var asset := inv.resolve(row).value;
      families := families + {asset.family};
      if (KeyOf(asset), row.rail) in identities { return false; }
      identities := identities + {(KeyOf(asset), row.rail)};
      if !SwapOnChain(row, asset.chain) { return false; }
      assert o.rows[..i + 1] == o.rows[..i] + [row];
      i := i + 1;
    }
    assert o.rows[..i] == o.rows;
    if o.accounts.Keys != families { return false; }
    return forall f | f in o.accounts :: codec.owner(f, o.accounts[f]);
  }

  // ---------------------------------------------------------------- what the compiled registry says about one asset

  /** The owner's row for this asset and rail (the first one; accepted input has at most one). */
  function At(inv: Inventory, rows: seq<OwnerRow>, key: Key, rail: Rail): Option<OwnerRow> {
    if rows == [] then None
    else
      var earlier, last := At(inv, rows[..|rows| - 1], key, rail), rows[|rows| - 1];
      if earlier.Some? then earlier
      else if RowKey(inv, last) == Some(key) && last.rail == rail then Some(last) else None
  }

  function CapsOf(a: OwnerRow): AtomicCaps {
    AtomicCaps(match (a.maximum, a.alternatives)
               case (Some(m), _) => m
               case (None, Some(BridgeAlternatives(options))) => MaximumOf(options)
               case _ => 0,
               a.daily)
  }

  function BridgeOptionsOf(a: OwnerRow): Option<seq<BridgeOption>> {
    match a.alternatives case Some(BridgeAlternatives(options)) => Some(options) case _ => None
  }

  function SwapOptionsOf(a: OwnerRow): Option<seq<SwapMechanism>> {
    match a.alternatives case Some(SwapAlternatives(routes)) => Some(routes) case _ => None
  }

  /** What the owner said about one asset: at most one row on each rail. */
  datatype Lanes = Lanes(direct: Option<OwnerRow>, gasless: Option<OwnerRow>, x402: Option<OwnerRow>,
                         bridge: Option<OwnerRow>, swap: Option<OwnerRow>) {
    function On(r: Rail): Option<OwnerRow> {
      match r case Direct => direct case Gasless => gasless case X402 => x402 case Bridge => bridge case Swap => swap
    }

    function With(a: OwnerRow): Lanes {
      match a.rail
      case Direct => this.(direct := Some(a))
      case Gasless => this.(gasless := Some(a))
      case X402 => this.(x402 := Some(a))
      case Bridge => this.(bridge := Some(a))
      case Swap => this.(swap := Some(a))
    }
  }

  const NOTHING := Lanes(None, None, None, None, None)

  function LanesOf(inv: Inventory, rows: seq<OwnerRow>, key: Key): Lanes {
    Lanes(At(inv, rows, key, Direct), At(inv, rows, key, Gasless), At(inv, rows, key, X402), At(inv, rows, key, Bridge),
          At(inv, rows, key, Swap))
  }

  function RailsOf(l: Lanes): set<Rail> { set r | r in ALL_RAILS && l.On(r).Some? }

  function CapsMap(l: Lanes): map<Rail, AtomicCaps> { map r | r in ALL_RAILS && l.On(r).Some? :: CapsOf(l.On(r).value) }

  function PinsOf(l: Lanes): map<Rail, MechanismPin> {
    map r | r in ALL_RAILS && l.On(r).Some? && l.On(r).value.mechanism.Some? :: l.On(r).value.mechanism.value
  }

  function RecipientsOf(l: Lanes): map<Rail, seq<string>> {
    map r | r in ALL_RAILS && IsPinRail(r) && l.On(r).Some? && l.On(r).value.recipients.Some? ::
      l.On(r).value.recipients.value
  }

  /** The registry row of one asset, read off its lanes rail by rail, in no order. */
  function RowFrom(c: Candidate, l: Lanes): Row {
    Row(c.kind, c.identifier, c.symbol, c.decimals, RailsOf(l), None, Some(CapsMap(l)), PinsOf(l),
        if l.bridge.Some? then BridgeOptionsOf(l.bridge.value) else None,
        if l.swap.Some? then SwapOptionsOf(l.swap.value) else None,
        if l.gasless.Some? then l.gasless.value.recipient else None,
        RecipientsOf(l))
  }

  function RowFor(inv: Inventory, rows: seq<OwnerRow>, c: Candidate): Row { RowFrom(c, LanesOf(inv, rows, KeyOf(c))) }

  // ---------------------------------------------------------------- merging rows

  function EmptyRow(c: Candidate): Row {
    Row(c.kind, c.identifier, c.symbol, c.decimals, {}, None, Some(map[]), map[], None, None, None, map[])
  }

  /** One admission merged into its asset's row. */
  function Merge(row: Row, a: OwnerRow): Row {
    row.(rails := row.rails + {a.rail},
         railCaps := Some((if row.railCaps.Some? then row.railCaps.value else map[])[a.rail := CapsOf(a)]),
         pins := if a.mechanism.Some? then row.pins[a.rail := a.mechanism.value] else row.pins,
         gaslessRecipient := if a.recipient.Some? then a.recipient else row.gaslessRecipient,
         recipients := if a.recipients.Some? && IsPinRail(a.rail) then row.recipients[a.rail := a.recipients.value]
           else row.recipients,
         swapOptions := if SwapOptionsOf(a).Some? then SwapOptionsOf(a) else row.swapOptions,
         bridgeOptions := if BridgeOptionsOf(a).Some? then BridgeOptionsOf(a) else row.bridgeOptions)
  }

  lemma AtPrefix(inv: Inventory, rows: seq<OwnerRow>, a: OwnerRow, key: Key, rail: Rail)
    ensures At(inv, rows + [a], key, rail) ==
      var earlier := At(inv, rows, key, rail);
      if earlier.Some? then earlier
      else if RowKey(inv, a) == Some(key) && a.rail == rail then Some(a) else None
  {
    assert (rows + [a])[..|rows|] == rows;
  }

  /** `At` answers with a row of this asset and rail, and with the only one when there are no duplicates. */
  lemma {:induction false} AtIsListed(inv: Inventory, rows: seq<OwnerRow>, key: Key, rail: Rail)
    ensures var r := At(inv, rows, key, rail);
      && (r.Some? ==> r.value in rows && RowKey(inv, r.value) == Some(key) && r.value.rail == rail)
      && (r.None? ==> forall a :: a in rows ==> !(RowKey(inv, a) == Some(key) && a.rail == rail))
    decreases |rows|
  {
    if rows != [] {
      AtIsListed(inv, rows[..|rows| - 1], key, rail);
      assert rows == rows[..|rows| - 1] + [rows[|rows| - 1]];
    }
  }

  lemma AtIsUnique(inv: Inventory, rows: seq<OwnerRow>, a: OwnerRow, key: Key)
    requires NoDuplicates(inv, rows) && a in rows && RowKey(inv, a) == Some(key)
    ensures At(inv, rows, key, a.rail) == Some(a)
  {
    AtIsListed(inv, rows, key, a.rail);
    var b := At(inv, rows, key, a.rail).value;
    var i :| 0 <= i < |rows| && rows[i] == a;
    var j :| 0 <= j < |rows| && rows[j] == b;
    assert i == j by { assert RowKey(inv, rows[i]) == RowKey(inv, rows[j]) && rows[i].rail == rows[j].rail; }
  }

  lemma NothingIsEmptyRow(c: Candidate)
    ensures RowFrom(c, NOTHING) == EmptyRow(c)
  {
  }

  /** A row of another asset changes nothing; a new rail of this asset fills its lane. */
  lemma LanesAppend(inv: Inventory, rows: seq<OwnerRow>, a: OwnerRow, key: Key)
    requires RowKey(inv, a) == Some(key) ==> At(inv, rows, key, a.rail).None?
    ensures LanesOf(inv, rows + [a], key) ==
      if RowKey(inv, a) == Some(key) then LanesOf(inv, rows, key).With(a) else LanesOf(inv, rows, key)
  {
    forall r: Rail { AtPrefix(inv, rows, a, key, r); }
  }

  lemma RailsWith(l: Lanes, a: OwnerRow)
    ensures RailsOf(l.With(a)) == RailsOf(l) + {a.rail}
    ensures CapsMap(l.With(a)) == CapsMap(l)[a.rail := CapsOf(a)]
  {
    assert forall r :: l.With(a).On(r) == if r == a.rail then Some(a) else l.On(r);
  }

  lemma PinsWith(l: Lanes, a: OwnerRow)
    requires l.On(a.rail).None?
    ensures PinsOf(l.With(a)) == if a.mechanism.Some? then PinsOf(l)[a.rail := a.mechanism.value] else PinsOf(l)
  {
    assert forall r :: l.With(a).On(r) == if r == a.rail then Some(a) else l.On(r);
  }

  lemma RecipientsWith(l: Lanes, a: OwnerRow)
    requires l.On(a.rail).None?
    ensures RecipientsOf(l.With(a)) ==
      if a.recipients.Some? && IsPinRail(a.rail) then RecipientsOf(l)[a.rail := a.recipients.value] else RecipientsOf(l)
  {
    assert forall r :: l.With(a).On(r) == if r == a.rail then Some(a) else l.On(r);
  }

  /** Merging an accepted row into an asset's row is filling its lane. */
  lemma MergeFillsLane(codec: Codec, c: Candidate, l: Lanes, a: OwnerRow)
    requires AcceptedRow(codec, a) && l.On(a.rail).None?
    ensures RowFrom(c, l.With(a)) == Merge(RowFrom(c, l), a)
  {
    RailsWith(l, a);
    PinsWith(l, a);
    RecipientsWith(l, a);
  }

  // ---------------------------------------------------------------- the compiler

  datatype Merged = Merged(asset: Candidate, row: Row)

  /** Where an asset's merged row is, or the length when it has none. */
  function Position(merged: seq<Merged>, key: Key): (k: nat)
    ensures k <= |merged| && (k < |merged| ==> KeyOf(merged[k].asset) == key)
    ensures forall j :: 0 <= j < k ==> KeyOf(merged[j].asset) != key
  {
    if merged == [] then 0
    else if KeyOf(merged[0].asset) == key then 0
    else
      var rest := Position(merged[1..], key);
      assert forall j :: 0 < j < rest + 1 ==> merged[j] == merged[1..][j - 1];
      rest + 1
  }

  /** Some row of the input resolves to exactly this asset. */
  ghost predicate Named(inv: Inventory, rows: seq<OwnerRow>, c: Candidate) {
    exists a :: a in rows && inv.resolve(a) == Some(c)
  }

  ghost predicate SaysAll(inv: Inventory, rows: seq<OwnerRow>, m: Merged) {
    m.row == RowFor(inv, rows, m.asset) && Named(inv, rows, m.asset)
  }

  ghost predicate OncePerAsset(merged: seq<Merged>) {
    forall i, j :: 0 <= i < j < |merged| ==> KeyOf(merged[i].asset) != KeyOf(merged[j].asset)
  }

  ghost predicate Placed(inv: Inventory, merged: seq<Merged>, a: OwnerRow) {
    inv.resolve(a).Some? ==> Position(merged, KeyOf(inv.resolve(a).value)) < |merged|
  }

  /** One merged row per asset named, holding everything said about it. */
  ghost predicate IsMerged(inv: Inventory, rows: seq<OwnerRow>, merged: seq<Merged>) {
    && (forall i :: 0 <= i < |merged| ==> SaysAll(inv, rows, merged[i]))
    && OncePerAsset(merged)
    && (forall i :: 0 <= i < |rows| ==> Placed(inv, merged, rows[i]))
  }

  /** The merged rows after one more admission: merged into its asset's row, or into a new empty one. */
  function MergedNext(merged: seq<Merged>, asset: Candidate, a: OwnerRow): seq<Merged> {
    var k := Position(merged, KeyOf(asset));
    if k < |merged| then merged[k := merged[k].(row := Merge(merged[k].row, a))]
    else merged + [Merged(asset, Merge(EmptyRow(asset), a))]
  }

  function MergedAll(inv: Inventory, rows: seq<OwnerRow>): seq<Merged>
    requires forall i :: 0 <= i < |rows| ==> inv.resolve(rows[i]).Some?
  {
    if rows == [] then []
    else
      var a := rows[|rows| - 1];
      MergedNext(MergedAll(inv, rows[..|rows| - 1]), inv.resolve(a).value, a)
  }

  /** The compiler's first loop, over a map that keeps insertion order. */
  method MergeRows(inv: Inventory, rows: seq<OwnerRow>) returns (merged: seq<Merged>)
    requires Resolved(inv, rows)
    ensures merged == MergedAll(inv, rows)
  {
    merged := [];
    for i := 0 to |rows|
      invariant merged == MergedAll(inv, rows[..i])
    {
      var asset := inv.resolve(rows[i]).value;
      var k := Position(merged, KeyOf(asset));
      var row := if k < |merged| then merged[k].row else EmptyRow(asset);
      row := Merge(row, rows[i]);
      if k < |merged| {
        merged := merged[k := merged[k].(row := row)];
      } else {
        merged := merged + [Merged(asset, row)];
      }
      assert rows[..i + 1][..i] == rows[..i];
    }
    assert rows[..|rows|] == rows;
  }

  /** However the rows are interleaved, each asset's merged row holds exactly what was said about it. */
  lemma {:induction false} MergedAllIsMerged(codec: Codec, inv: Inventory, rows: seq<OwnerRow>)
    requires Resolved(inv, rows) && NoDuplicates(inv, rows)
    requires forall i :: 0 <= i < |rows| ==> AcceptedRow(codec, rows[i])
    ensures IsMerged(inv, rows, MergedAll(inv, rows))
    decreases |rows|
  {
    if rows != [] {
      var n := |rows| - 1;
      MergedAllIsMerged(codec, inv, rows[..n]);
      NoEarlierRow(inv, rows, n);
      MergeStep(codec, inv, rows[..n], rows[n], MergedAll(inv, rows[..n]));
      assert rows[..n] + [rows[n]] == rows;
    }
  }

  lemma MergeStep(codec: Codec, inv: Inventory, before: seq<OwnerRow>, a: OwnerRow, merged: seq<Merged>)
    requires AcceptedRow(codec, a) && inv.resolve(a).Some? && IsMerged(inv, before, merged)
    requires At(inv, before, KeyOf(inv.resolve(a).value), a.rail).None?
    ensures IsMerged(inv, before + [a], MergedNext(merged, inv.resolve(a).value, a))
  {
    MergeSays(codec, inv, before, a, merged);
    NextOnce(merged, inv.resolve(a).value, a);
    MergePlaces(inv, before, a, merged);
  }

  lemma MergePlaces(inv: Inventory, before: seq<OwnerRow>, a: OwnerRow, merged: seq<Merged>)
    requires inv.resolve(a).Some? && forall j :: 0 <= j < |before| ==> Placed(inv, merged, before[j])
    ensures var next := MergedNext(merged, inv.resolve(a).value, a);
      forall j :: 0 <= j < |before + [a]| ==> Placed(inv, next, (before + [a])[j])
  {
    forall j | 0 <= j < |before + [a]|
      ensures Placed(inv, MergedNext(merged, inv.resolve(a).value, a), (before + [a])[j])
    {
      NextPlaced(inv, before, a, merged, j);
    }
  }

  lemma MergeSays(codec: Codec, inv: Inventory, before: seq<OwnerRow>, a: OwnerRow, merged: seq<Merged>)
    requires AcceptedRow(codec, a) && inv.resolve(a).Some? && IsMerged(inv, before, merged)
    requires At(inv, before, KeyOf(inv.resolve(a).value), a.rail).None?
    ensures var next := MergedNext(merged, inv.resolve(a).value, a);
      forall j :: 0 <= j < |next| ==> SaysAll(inv, before + [a], next[j])
  {
    var next := MergedNext(merged, inv.resolve(a).value, a);
    forall j | 0 <= j < |next| ensures SaysAll(inv, before + [a], next[j]) {
      NextRow(codec, inv, before, a, merged, j);
    }
  }

  lemma NextOnce(merged: seq<Merged>, asset: Candidate, a: OwnerRow)
    requires OncePerAsset(merged)
    ensures OncePerAsset(MergedNext(merged, asset, a))
  {
  }

  lemma NextPlaced(inv: Inventory, before: seq<OwnerRow>, a: OwnerRow, merged: seq<Merged>, j: nat)
    requires inv.resolve(a).Some? && j <= |before|
    requires j < |before| ==> Placed(inv, merged, before[j])
    ensures Placed(inv, MergedNext(merged, inv.resolve(a).value, a), (before + [a])[j])
  {
    var b := (before + [a])[j];
    if inv.resolve(b).Some? {
      PositionKept(merged, MergedNext(merged, inv.resolve(a).value, a), KeyOf(inv.resolve(b).value));
    }
  }

  /** Each merged row says everything said so far about its asset, the new row included. */
  lemma NextRow(codec: Codec, inv: Inventory, before: seq<OwnerRow>, a: OwnerRow, merged: seq<Merged>, j: nat)
    requires AcceptedRow(codec, a) && inv.resolve(a).Some? && IsMerged(inv, before, merged)
    requires At(inv, before, KeyOf(inv.resolve(a).value), a.rail).None?
    requires j < |MergedNext(merged, inv.resolve(a).value, a)|
    ensures var next := MergedNext(merged, inv.resolve(a).value, a)[j];
      next.row == RowFor(inv, before + [a], next.asset) && Named(inv, before + [a], next.asset)
  {
    var asset := inv.resolve(a).value;
    var k := Position(merged, KeyOf(asset));
    var next := MergedNext(merged, asset, a)[j];
    NamedMore(inv, before, a, next.asset);
    LanesAppend(inv, before, a, KeyOf(next.asset));
    if j == k {
      if k == |merged| {
        NothingSaid(inv, before, merged, asset);
        NothingIsEmptyRow(asset);
      }
      MergeFillsLane(codec, next.asset, LanesOf(inv, before, KeyOf(asset)), a);
    }
  }

  lemma NamedMore(inv: Inventory, rows: seq<OwnerRow>, a: OwnerRow, c: Candidate)
    ensures Named(inv, rows, c) || inv.resolve(a) == Some(c) ==> Named(inv, rows + [a], c)
  {
    if Named(inv, rows, c) {
      var b :| b in rows && inv.resolve(b) == Some(c);
      assert b in rows + [a];
    }
    assert a in rows + [a];
  }

  /** Rewriting rows or adding one keeps every asset found, and finds the new one. */
  lemma PositionKept(merged: seq<Merged>, next: seq<Merged>, key: Key)
    requires |merged| <= |next| && forall j :: 0 <= j < |merged| ==> next[j].asset == merged[j].asset
    ensures Position(merged, key) < |merged| ==> Position(next, key) < |next|
    ensures |merged| < |next| && KeyOf(next[|merged|].asset) == key ==> Position(next, key) < |next|
  {
  }

  lemma NoEarlierRow(inv: Inventory, rows: seq<OwnerRow>, i: nat)
    requires Resolved(inv, rows) && NoDuplicates(inv, rows) && i < |rows|
    ensures At(inv, rows[..i], KeyOf(Cand(inv, rows[i])), rows[i].rail).None?
  {
    AtIsListed(inv, rows[..i], KeyOf(Cand(inv, rows[i])), rows[i].rail);
  }

  /** An asset without a merged row was named by no row so far. */
  lemma NothingSaid(inv: Inventory, rows: seq<OwnerRow>, merged: seq<Merged>, asset: Candidate)
    requires IsMerged(inv, rows, merged) && Position(merged, KeyOf(asset)) == |merged|
    ensures LanesOf(inv, rows, KeyOf(asset)) == NOTHING
  {
    forall r: Rail ensures At(inv, rows, KeyOf(asset), r).None? { AtIsListed(inv, rows, KeyOf(asset), r); }
  }
}
