/** The sealed owner policy registry: its validator and the evaluator every money rail calls. */
module AssetPolicy {
  import opened Basics

  datatype Family = Evm | Solana | Tron
  datatype Kind = Native | Token
  datatype Rail = Direct | Gasless | X402 | Bridge | Swap
  datatype Schema = V1 | V2

  const MAX_CHAINS := 64
  const MAX_ASSETS_PER_CHAIN := 256
  const MAX_RECIPIENT_PINS := 16
  const MAX_ALTERNATIVES := 16
  const BASE_CHAIN := "eip155:8453"
  const ETHEREUM_CHAIN := "eip155:1"
  const COINBASE_PROVIDER := "coinbase-agentic-wallet"
  const LOCAL_PROVIDER := "local"

  datatype Recipient = Recipient(family: Family, address: string)

  /** The address codecs and the swap route validator, which this model does not look into. */
  datatype Codec = Codec(
    chainCanonical: (Family, string) -> bool,
    token: (Family, string) -> Option<string>,
    recipient: string -> Option<Recipient>,
    account: (string, string) -> bool,
    owner: (Family, string) -> bool,
    swapValid: SwapMechanism -> bool)

  datatype AtomicCaps = AtomicCaps(maximum: nat, daily: nat)

  datatype ProviderPin = ProviderPin(provider: string, reference: string)

  /** What the owner admits for a swap; `version` stands for the fields a route identity ignores. */
  datatype SwapMechanism = SwapMechanism(protocol: string, chain: string, router: string, auxiliaries: seq<string>,
                                         version: Option<string>)

  /** The order-insensitive route identity behind `swapRouteDigest`. */
  datatype SwapRoute = SwapRoute(protocol: string, chain: string, router: string, auxiliaries: multiset<string>)

  function RouteOf(m: SwapMechanism): SwapRoute {
    SwapRoute(m.protocol, m.chain, m.router, multiset(m.auxiliaries))
  }

  datatype MechanismPin = Provider(pin: ProviderPin) | SwapPin(swap: SwapMechanism)

  /** One bridge alternative with its own per-transfer ceiling and, optionally, its own recipient pin. */
  datatype BridgeOption = BridgeOption(pin: ProviderPin, maximum: nat, recipients: Option<seq<string>>)

  /** An absent pins or recipients object is the empty map here. */
  datatype Row = Row(
    kind: Kind,
    identifier: Option<string>,
    symbol: string,
    decimals: int,
    rails: set<Rail>,
    caps: Option<AtomicCaps>,
    railCaps: Option<map<Rail, AtomicCaps>>,
    pins: map<Rail, MechanismPin>,
    bridgeOptions: Option<seq<BridgeOption>>,
    swapOptions: Option<seq<SwapMechanism>>,
    gaslessRecipient: Option<string>,
    recipients: map<Rail, seq<string>>)

  datatype Chain = Chain(chain: string, family: Family, name: string, assets: seq<Row>)

  datatype RegistryBody = RegistryBody(
    schema: Schema,
    version: string,
    publishedAt: int,
    effectiveDate: int,
    effectiveAt: Option<int>,
    expiresAt: Option<int>,
    chains: seq<Chain>)

  /** The domain-separated hash of the canonical text, taken to be injective. */
  datatype Digest = PolicyDigest(body: RegistryBody)

  datatype Registry = Registry(body: RegistryBody, policyDigest: Digest)

  // ---------------------------------------------------------------- validation

  predicate IsVersion(s: string) {
    && IsToken(s, 64, "._-")
    && forall i :: 0 <= i < |s| ==> !('A' <= s[i] <= 'Z')
  }
  predicate IsPinText(s: string) { IsToken(s, 256, "._:/@+-") }
  predicate IsSymbol(s: string) { IsToken(s, 16, "._-") }
  predicate IsNetworkName(s: string) { IsToken(s, 64, " .()/-") }

  predicate ValidCaps(c: AtomicCaps) { 0 < c.maximum <= c.daily <= MAX_UINT256 }

  predicate ValidPin(codec: Codec, rail: Rail, pin: MechanismPin) {
    match rail
    case Direct => false
    case Swap => pin.SwapPin? && codec.swapValid(pin.swap)
    case _ => pin.Provider? && IsPinText(pin.pin.provider) && IsPinText(pin.pin.reference)
  }

  predicate Distinct<T(==)>(s: seq<T>) {
    forall i, j :: 0 <= i < j < |s| ==> s[i] != s[j]
  }

  /** 1 to 16 unique canonical addresses; `family` None admits any family. */
  predicate ValidRecipientPins(codec: Codec, list: seq<string>, family: Option<Family>) {
    && 1 <= |list| <= MAX_RECIPIENT_PINS
    && Distinct(list)
    && forall i :: 0 <= i < |list| ==>
         var canonical := codec.recipient(list[i]);
         canonical.Some? && canonical.value.address == list[i]
           && (family.Some? ==> canonical.value.family == family.value)
  }

  predicate ValidBridgeOption(codec: Codec, o: BridgeOption, railMaximum: nat) {
    && IsPinText(o.pin.provider) && IsPinText(o.pin.reference)
    && 0 < o.maximum <= railMaximum
    && (o.recipients.Some? ==> ValidRecipientPins(codec, o.recipients.value, None))
  }

  predicate ValidBridgeOptions(codec: Codec, row: Row, options: seq<BridgeOption>) {
    && Bridge in row.rails && Bridge !in row.pins
    && row.railCaps.Some? && Bridge in row.railCaps.value
    && 2 <= |options| <= MAX_ALTERNATIVES
    && (forall i :: 0 <= i < |options| ==> ValidBridgeOption(codec, options[i], row.railCaps.value[Bridge].maximum))
    && (forall i, j :: 0 <= i < j < |options| ==> options[i].pin != options[j].pin)
  }

  predicate ValidSwapOptions(codec: Codec, row: Row, options: seq<SwapMechanism>) {
    && Swap in row.rails && Swap !in row.pins
    && 2 <= |options| <= MAX_ALTERNATIVES
    && (forall i :: 0 <= i < |options| ==> codec.swapValid(options[i]))
    && (forall i, j :: 0 <= i < j < |options| ==> RouteOf(options[i]) != RouteOf(options[j]))
  }

  predicate ValidIdentity(codec: Codec, family: Family, row: Row) {
    match row.kind
    case Native => row.identifier == None
    case Token => row.identifier.Some? && codec.token(family, row.identifier.value) == row.identifier
  }

  /** Exactly one cap pair per admitted rail under version 2, one shared pair under version 1. */
  predicate ValidRowCaps(schema: Schema, row: Row) {
    match schema
    case V1 => row.railCaps == None && row.caps.Some? && ValidCaps(row.caps.value)
    case V2 =>
      && row.caps == None && row.railCaps.Some?
      && row.rails != {}
      && row.railCaps.value.Keys == row.rails
      && forall r | r in row.rails :: ValidCaps(row.railCaps.value[r])
  }

  predicate ValidGaslessRecipient(codec: Codec, family: Family, row: Row) {
    row.gaslessRecipient.Some? ==>
      && family == Evm
      && Gasless in row.rails
      && Gasless in row.pins && row.pins[Gasless].Provider?
      && row.pins[Gasless].pin.provider in [LOCAL_PROVIDER, COINBASE_PROVIDER]
      && codec.recipient(row.gaslessRecipient.value) == Some(Recipient(Evm, row.gaslessRecipient.value))
  }

  predicate ValidRecipients(codec: Codec, family: Family, row: Row) {
    forall r | r in row.recipients ::
      && r in {Direct, X402, Bridge}
      && r in row.rails
      && !(r == Bridge && row.bridgeOptions.Some?)
      && ValidRecipientPins(codec, row.recipients[r], if r == Bridge then None else Some(family))
  }

  predicate ValidRow(codec: Codec, family: Family, schema: Schema, row: Row) {
    && IsSymbol(row.symbol) && 0 <= row.decimals <= 255
    && ValidIdentity(codec, family, row)
    && ValidRowCaps(schema, row)
    && (forall r | r in row.pins :: ValidPin(codec, r, row.pins[r]))
    && ValidGaslessRecipient(codec, family, row)
    && (row.swapOptions.Some? ==> ValidSwapOptions(codec, row, row.swapOptions.value))
    && (row.bridgeOptions.Some? ==> schema == V2 && ValidBridgeOptions(codec, row, row.bridgeOptions.value))
    && ValidRecipients(codec, family, row)
    && (Swap in row.rails <==> Swap in row.pins || row.swapOptions.Some?)
  }

  predicate ValidRowOnChain(chain: string, row: Row) {
    && (row.gaslessRecipient.Some? ==> chain in [ETHEREUM_CHAIN, BASE_CHAIN])
    && (Gasless in row.pins && row.pins[Gasless].Provider? && row.pins[Gasless].pin.provider == COINBASE_PROVIDER ==>
          chain == BASE_CHAIN && row.gaslessRecipient.Some?)
  }

  predicate ValidChain(codec: Codec, schema: Schema, c: Chain) {
    && IsNetworkName(c.name)
    && codec.chainCanonical(c.family, c.chain)
    && 1 <= |c.assets| <= MAX_ASSETS_PER_CHAIN
    && (forall i ::
         0 <= i < |c.assets| ==>
           ValidRow(codec, c.family, schema, c.assets[i]) && ValidRowOnChain(c.chain, c.assets[i]))
    && (forall i, j ::
         0 <= i < j < |c.assets| ==>
           (c.assets[i].kind, c.assets[i].identifier) != (c.assets[j].kind, c.assets[j].identifier))
  }

  predicate ValidWindow(b: RegistryBody) {
    && (b.effectiveAt.Some? ==> Day(b.effectiveAt.value) == b.effectiveDate)
    && (b.expiresAt.Some? ==>
          if b.effectiveAt.None? then Day(b.expiresAt.value) > b.effectiveDate
          else b.expiresAt.value > b.effectiveAt.value)
  }

  predicate ValidBody(codec: Codec, b: RegistryBody) {
    && IsVersion(b.version)
    && ValidWindow(b)
    && 1 <= |b.chains| <= MAX_CHAINS
    && (forall i :: 0 <= i < |b.chains| ==> ValidChain(codec, b.schema, b.chains[i]))
    && (forall i, j :: 0 <= i < j < |b.chains| ==> b.chains[i].chain != b.chains[j].chain)
  }

  predicate ValidRegistry(codec: Codec, r: Registry) {
    ValidBody(codec, r.body) && r.policyDigest == PolicyDigest(r.body)
  }

  /** `sealAssetPolicyRegistry`: refuse an invalid body, otherwise bind its digest. */
  function Seal(codec: Codec, body: RegistryBody): (r: Result<Registry>)
    ensures r.Ok? <==> ValidBody(codec, body)
    ensures r.Ok? ==> ValidRegistry(codec, r.value) && r.value.body == body
  {
    if ValidBody(codec, body) then Ok(Registry(body, PolicyDigest(body))) else Err(InvalidInput)
  }

  // ---------------------------------------------------------------- evaluation

  datatype Request = Request(
    chain: string,
    kind: Kind,
    identifier: Option<string>,
    rail: Rail,
    mechanism: Option<ProviderPin>,
    amount: nat,
    dailyUsage: nat,
    asOfDate: int,
    asOf: Option<int>)

  datatype Admission = Admission(
    policyDigest: Digest,
    registryVersion: string,
    chain: string,
    family: Family,
    row: Row,
    rail: Rail,
    caps: AtomicCaps,
    amount: nat,
    dailyUsage: nat,
    dailyRemaining: nat)

  function FindChain(chains: seq<Chain>, name: string): (r: Option<Chain>)
    ensures r.None? <==> forall i :: 0 <= i < |chains| ==> chains[i].chain != name
    ensures r.Some? ==> r.value in chains && r.value.chain == name
  {
    if chains == [] then None
    else if chains[0].chain == name then Some(chains[0])
    else FindChain(chains[1..], name)
  }

  function FindRow(rows: seq<Row>, kind: Kind, identifier: Option<string>): (r: Option<Row>)
    ensures r.None? <==> forall i :: 0 <= i < |rows| ==> !(rows[i].kind == kind && rows[i].identifier == identifier)
    ensures r.Some? ==> r.value in rows && r.value.kind == kind && r.value.identifier == identifier
  {
    if rows == [] then None
    else if rows[0].kind == kind && rows[0].identifier == identifier then Some(rows[0])
    else FindRow(rows[1..], kind, identifier)
  }

  function FindOption(options: seq<BridgeOption>, pin: ProviderPin): (r: Option<BridgeOption>)
    ensures r.None? <==> forall i :: 0 <= i < |options| ==> options[i].pin != pin
    ensures r.Some? ==> r.value in options && r.value.pin == pin
  {
    if options == [] then None
    else if options[0].pin == pin then Some(options[0])
    else FindOption(options[1..], pin)
  }

  /** The policy window: nothing before the effective date or instant, nothing from the expiry on. */
  function CheckWindow(body: RegistryBody, asOfDate: int, asOf: Option<int>): (r: Result<()>)
    ensures r.Ok? && asOf.Some? && (body.effectiveAt.Some? || body.expiresAt.Some?) ==> Day(asOf.value) == asOfDate
  {
    if asOfDate < body.effectiveDate then Err(OperationBlocked)
    else if body.effectiveAt.None? && body.expiresAt.None? then Ok(())
    else if asOf.None? || Day(asOf.value) != asOfDate then Err(InvalidInput)
    else if body.effectiveAt.Some? && asOf.value < body.effectiveAt.value then Err(OperationBlocked)
    else if body.expiresAt.Some? && asOf.value >= body.expiresAt.value then Err(OperationBlocked)
    else Ok(())
  }

  /** Native selects by the null identity; a token only by the codec's canonical spelling (on EVM the caller's own). */
  function CanonicalIdentifier(codec: Codec, family: Family, kind: Kind,
                               identifier: Option<string>): Result<Option<string>>
    requires kind.Native? <==> identifier.None?
  {
    if kind.Native? then Ok(None)
    else
      var canonical := codec.token(family, identifier.value);
      if canonical.None? || (family == Evm && canonical != identifier) then Err(InvalidInput) else Ok(canonical)
  }

  function RowCaps(schema: Schema, row: Row, rail: Rail): Option<AtomicCaps> {
    match schema
    case V1 => row.caps
    case V2 => if row.railCaps.Some? && rail in row.railCaps.value then Some(row.railCaps.value[rail]) else None
  }

  /** A bridge row with alternatives needs the caller to name one of them; every other row uses the rail cap. */
  function PerTransferCap(row: Row, caps: AtomicCaps, rail: Rail, mechanism: Option<ProviderPin>): Result<nat> {
    if rail != Bridge || row.bridgeOptions.None? then Ok(caps.maximum)
    else if mechanism.None? then Err(OperationBlocked)
    else
      var selected := FindOption(row.bridgeOptions.value, mechanism.value);
      if selected.None? then Err(OperationBlocked) else Ok(selected.value.maximum)
  }

  function Evaluate(codec: Codec, registry: Registry, q: Request): Result<Admission> {
    if !ValidRegistry(codec, registry) then Err(InvalidInput)
    else if !(q.kind.Native? <==> q.identifier.None?) then Err(InvalidInput)
    else
      var _ :- CheckWindow(registry.body, q.asOfDate, q.asOf);
      var chain := FindChain(registry.body.chains, q.chain);
      if chain.None? then Err(OperationBlocked)
      else
        var identifier :- CanonicalIdentifier(codec, chain.value.family, q.kind, q.identifier);
        var row := FindRow(chain.value.assets, q.kind, identifier);
        if row.None? || q.rail !in row.value.rails then Err(OperationBlocked)
        else EvaluateRow(registry, chain.value, row.value, q)
  }

  function EvaluateRow(registry: Registry, chain: Chain, row: Row, q: Request): Result<Admission> {
    var caps := RowCaps(registry.body.schema, row, q.rail);
    if caps.None? then Err(InvalidInput)
    else if q.amount == 0 || q.amount > MAX_UINT256 || q.dailyUsage > MAX_UINT256 then Err(InvalidInput)
    else
      var perTransfer :- PerTransferCap(row, caps.value, q.rail, q.mechanism);
      var daily := caps.value.daily;
      if q.amount > perTransfer then Err(OperationBlocked)
      else if q.dailyUsage + q.amount > daily then Err(OperationBlocked)
      else Ok(Admission(registry.policyDigest, registry.body.version, chain.chain, chain.family, row, q.rail,
                        AtomicCaps(perTransfer, daily), q.amount, q.dailyUsage, daily - q.dailyUsage - q.amount))
  }

  /** What an admission promises: the request fits both caps, and the caps are those of the listed row. */
  lemma EvaluateBounds(codec: Codec, registry: Registry, q: Request)
    requires Evaluate(codec, registry, q).Ok?
    ensures var a := Evaluate(codec, registry, q).value;
      && 0 < q.amount <= a.caps.maximum
      && q.dailyUsage + q.amount + a.dailyRemaining == a.caps.daily <= MAX_UINT256
      && a.amount == q.amount && a.chain == q.chain && a.rail == q.rail
      && a.policyDigest == registry.policyDigest && a.registryVersion == registry.body.version
      && a.row.kind == q.kind
  {
    var chain := FindChain(registry.body.chains, q.chain).value;
    assert ValidChain(codec, registry.body.schema, chain);
    var identifier := CanonicalIdentifier(codec, chain.family, q.kind, q.identifier).value;
    var row := FindRow(chain.assets, q.kind, identifier).value;
    assert ValidRow(codec, chain.family, registry.body.schema, row);
    assert ValidCaps(RowCaps(registry.body.schema, row, q.rail).value);
  }

  /** No cap pair in the registry allows more than `bound` a day. */
  ghost predicate DailyWithin(body: RegistryBody, bound: nat) {
    forall i, j :: 0 <= i < |body.chains| && 0 <= j < |body.chains[i].assets| ==>
      forall r: Rail :: RowCaps(body.schema, body.chains[i].assets[j], r).Some? ==>
        RowCaps(body.schema, body.chains[i].assets[j], r).value.daily <= bound
  }

  /** The daily limit an admission names is one the owner wrote in the evaluated registry. */
  lemma EvaluateDailyWithin(codec: Codec, registry: Registry, q: Request, bound: nat)
    requires Evaluate(codec, registry, q).Ok? && DailyWithin(registry.body, bound)
    ensures Evaluate(codec, registry, q).value.caps.daily <= bound
  {
    var chain := FindChain(registry.body.chains, q.chain).value;
    var identifier := CanonicalIdentifier(codec, chain.family, q.kind, q.identifier).value;
    var row := FindRow(chain.assets, q.kind, identifier).value;
    var i :| 0 <= i < |registry.body.chains| && registry.body.chains[i] == chain;
    var j :| 0 <= j < |chain.assets| && chain.assets[j] == row;
    assert RowCaps(registry.body.schema, registry.body.chains[i].assets[j], q.rail).Some?;
  }

  /** The same request with less usage already charged is never refused. */
  lemma EvaluateAntitoneInUsage(codec: Codec, registry: Registry, q: Request, usage: nat)
    requires Evaluate(codec, registry, q).Ok? && usage <= q.dailyUsage
    ensures Evaluate(codec, registry, q.(dailyUsage := usage)).Ok?
  {
  }
}
