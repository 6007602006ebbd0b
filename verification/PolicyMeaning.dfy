/** The compiled registry means what the owner wrote: the evaluator admits a request exactly when an owner row does. */
module PolicyMeaning {
  import opened Basics
  import opened AssetPolicy
  import opened RecipientPins
  import opened PolicyCompiler
  import opened PolicyGrouping
  import opened CompiledRegistry

  // ---------------------------------------------------------------- the owner's own words

  /** The policy is in force at the caller's instant, which lies on the caller's day. */
  predicate InForce(o: Overlay, q: Request) {
    && q.asOf.Some? && Day(q.asOf.value) == q.asOfDate
    && o.effectiveAt <= q.asOf.value
    && (o.expiresAt.Some? ==> q.asOf.value < o.expiresAt.value)
  }

  /** The request spells this asset: a native one by no identifier, an EVM token exactly, others in any spelling. */
  predicate Spells(codec: Codec, c: Candidate, identifier: Option<string>) {
    match c.kind
    case Native => identifier.None?
    case Token =>
      && identifier.Some? && c.identifier.Some?
      && (if c.family == Evm then identifier == c.identifier
        else codec.token(c.family, identifier.value) == c.identifier)
  }

  /** The owner's row is about the requested asset and rail. */
  predicate Names(codec: Codec, inv: Inventory, a: OwnerRow, q: Request) {
    inv.resolve(a).Some? &&
    var c := inv.resolve(a).value;
    c.chain == q.chain && c.kind == q.kind && a.rail == q.rail && Spells(codec, c, q.identifier)
  }

  /** The amount is within the row's own cap, or the named alternative's, and the day's usage stays within its limit. */
  predicate Fits(a: OwnerRow, q: Request) {
    && 0 < q.amount && q.dailyUsage + q.amount <= a.daily
    && match BridgeOptionsOf(a)
       case None => a.maximum.Some? && q.amount <= a.maximum.value
       case Some(options) =>
         q.mechanism.Some? &&
         exists i :: 0 <= i < |options| && options[i].pin == q.mechanism.value && q.amount <= options[i].maximum
  }

  /** The recipients the owner listed: the row's own list, or that of the named alternative. */
  function OwnerPins(a: OwnerRow, mechanism: Option<ProviderPin>): Option<seq<string>> {
    match BridgeOptionsOf(a)
    case None => a.recipients
    case Some(options) =>
      if mechanism.None? || FindOption(options, mechanism.value).None? then None
      else FindOption(options, mechanism.value).value.recipients
  }

  /** The compiled and sealed policy of an accepted overlay, over an inventory with one answer per identity. */
  ghost predicate Sealed(codec: Codec, inv: Inventory, o: Overlay, registry: Registry) {
    && Accepted(codec, inv, o) && GoodInventory(codec, inv, o.rows) && Coherent(inv, o.rows)
    && Seal(codec, CompiledBody(inv, o)) == Ok(registry)
  }

  // ---------------------------------------------------------------- finding the one row

  lemma ListedRow(inv: Inventory, rows: seq<OwnerRow>, chains: seq<Chain>, ch: Chain, r: Row) returns (a: OwnerRow)
    requires IsCompiled(inv, rows, chains) && ch in chains && r in ch.assets
    ensures a in rows && inv.resolve(a).Some?
    ensures var c := inv.resolve(a).value; c.chain == ch.chain && r == RowFor(inv, rows, c)
  {
    var i :| 0 <= i < |chains| && chains[i] == ch;
    assert CompiledChain(inv, rows, chains[i]);
    var j :| 0 <= j < |ch.assets| && ch.assets[j] == r;
    assert Listed(inv, rows, ch.chain, ch.assets[j]);
    a :| a in rows && inv.resolve(a).Some? && inv.resolve(a).value.chain == ch.chain
      && r == RowFor(inv, rows, inv.resolve(a).value);
  }

  lemma SameAsset(inv: Inventory, rows: seq<OwnerRow>, a: OwnerRow, b: OwnerRow)
    requires Coherent(inv, rows) && a in rows && b in rows && inv.resolve(a).Some? && inv.resolve(b).Some?
    ensures SameNetwork(inv.resolve(a).value, inv.resolve(b).value)
  {
    var i :| 0 <= i < |rows| && rows[i] == a;
    var j :| 0 <= j < |rows| && rows[j] == b;
  }

  lemma ChainIsNamed(inv: Inventory, rows: seq<OwnerRow>, chains: seq<Chain>, ch: Chain) returns (a: OwnerRow)
    requires IsCompiled(inv, rows, chains) && ch in chains
    ensures a in rows && inv.resolve(a).Some?
    ensures var c := inv.resolve(a).value; c.chain == ch.chain && c.family == ch.family && c.networkName == ch.name
  {
    var i :| 0 <= i < |chains| && chains[i] == ch;
    assert CompiledChain(inv, rows, chains[i]);
    a :| a in rows && inv.resolve(a).Some? && inv.resolve(a).value.chain == ch.chain
      && inv.resolve(a).value.family == ch.family && inv.resolve(a).value.networkName == ch.name;
  }

  /** The registry row of an asset the owner named is the one row holding everything said about it. */
  lemma FoundRow(inv: Inventory, rows: seq<OwnerRow>, chains: seq<Chain>, a: OwnerRow)
    requires IsCompiled(inv, rows, chains) && Coherent(inv, rows) && a in rows && inv.resolve(a).Some?
    ensures var c := inv.resolve(a).value;
      var ch := FindChain(chains, c.chain);
      && ch.Some? && ch.value.family == c.family && ch.value.name == c.networkName
      && FindRow(ch.value.assets, c.kind, c.identifier) == Some(RowFor(inv, rows, c))
  {
    var c := inv.resolve(a).value;
    var i :| 0 <= i < |rows| && rows[i] == a;
    assert Covered(chains, KeyOf(inv.resolve(rows[i]).value));
    var ch := FindChain(chains, c.chain).value;
    var n := ChainIsNamed(inv, rows, chains, ch);
    SameAsset(inv, rows, a, n);
    var r := FindRow(ch.assets, c.kind, c.identifier).value;
    var b := ListedRow(inv, rows, chains, ch, r);
    SameAsset(inv, rows, a, b);
  }

  /** Whatever the registry holds, the owner named. */
  lemma FoundIsNamed(inv: Inventory, rows: seq<OwnerRow>, chains: seq<Chain>, name: string, kind: Kind,
                     identifier: Option<string>)
    returns (a: OwnerRow)
    requires IsCompiled(inv, rows, chains) && Coherent(inv, rows) && FindChain(chains, name).Some?
    requires FindRow(FindChain(chains, name).value.assets, kind, identifier).Some?
    ensures a in rows && RowKey(inv, a) == Some(Key(name, kind, identifier))
    ensures inv.resolve(a).value.family == FindChain(chains, name).value.family
    ensures FindRow(FindChain(chains, name).value.assets, kind, identifier).value ==
      RowFor(inv, rows, inv.resolve(a).value)
  {
    var ch := FindChain(chains, name).value;
    a := ListedRow(inv, rows, chains, ch, FindRow(ch.assets, kind, identifier).value);
    var n := ChainIsNamed(inv, rows, chains, ch);
    SameAsset(inv, rows, a, n);
  }

  // ---------------------------------------------------------------- one row's verdict

  lemma CompiledRowOn(inv: Inventory, rows: seq<OwnerRow>, c: Candidate, rail: Rail)
    ensures var r, a := RowFor(inv, rows, c), At(inv, rows, KeyOf(c), rail);
      && (rail in r.rails <==> a.Some?)
      && (a.Some? ==>
            && RowCaps(V2, r, rail) == Some(CapsOf(a.value))
            && (rail == Bridge ==> r.bridgeOptions == BridgeOptionsOf(a.value))
            && (IsPinRail(rail) ==>
                 (if rail in r.recipients then Some(r.recipients[rail]) else None) == a.value.recipients))
  {
    var l := LanesOf(inv, rows, KeyOf(c));
    assert l.On(rail) == At(inv, rows, KeyOf(c), rail);
    assert RailsOf(l) == RowFor(inv, rows, c).rails;
  }

  /** The registry row of an asset says of a rail exactly what the owner's row on that rail says, and nothing of a rail
      the owner did not write about: its cap pair, its mechanism or alternatives, and its recipients. */
  predicate SaysOfRail(r: Row, rail: Rail, a: Option<OwnerRow>) {
    if a.None? then
      rail !in r.rails && rail !in r.pins && rail !in r.recipients && (r.railCaps.Some? ==> rail !in r.railCaps.value)
    else
      && rail in r.rails && r.railCaps.Some? && rail in r.railCaps.value
      && r.railCaps.value[rail].daily == a.value.daily
      && (a.value.maximum.Some? ==> r.railCaps.value[rail].maximum == a.value.maximum.value)
      && (if rail in r.pins then Some(r.pins[rail]) else None) == a.value.mechanism
      && (rail in {Direct, X402, Bridge} ==>
            (if rail in r.recipients then Some(r.recipients[rail]) else None) == a.value.recipients)
      && (rail == Gasless ==> r.gaslessRecipient == a.value.recipient)
      && match a.value.alternatives
         case None => (rail == Bridge ==> r.bridgeOptions.None?) && (rail == Swap ==> r.swapOptions.None?)
         case Some(BridgeAlternatives(options)) => rail == Bridge && r.bridgeOptions == Some(options)
         case Some(SwapAlternatives(routes)) => rail == Swap && r.swapOptions == Some(routes)
  }

  lemma RowSays(codec: Codec, inv: Inventory, rows: seq<OwnerRow>, c: Candidate, rail: Rail)
    requires forall i :: 0 <= i < |rows| ==> AcceptedRow(codec, rows[i])
    ensures SaysOfRail(RowFor(inv, rows, c), rail, At(inv, rows, KeyOf(c), rail))
  {
    var l := LanesOf(inv, rows, KeyOf(c));
    assert l.On(rail) == At(inv, rows, KeyOf(c), rail);
    AtIsListed(inv, rows, KeyOf(c), rail);
  }

  lemma MaximumIsCap(a: OwnerRow, codec: Codec)
    requires AcceptedRow(codec, a)
    ensures BridgeOptionsOf(a).None? ==> a.maximum == Some(CapsOf(a).maximum)
    ensures BridgeOptionsOf(a).Some? ==> a.rail == Bridge
    ensures a.daily <= MAX_UINT256 && CapsOf(a).daily == a.daily
  {
  }

  /** A found option is the only one with its pin. */
  lemma FoundOptionIsTheOne(options: seq<BridgeOption>, pin: ProviderPin, amount: nat)
    requires forall i, j :: 0 <= i < j < |options| ==> options[i].pin != options[j].pin
    ensures (exists i :: 0 <= i < |options| && options[i].pin == pin && amount <= options[i].maximum) <==>
            FindOption(options, pin).Some? && amount <= FindOption(options, pin).value.maximum
  {
    var found := FindOption(options, pin);
    if found.Some? {
      var k :| 0 <= k < |options| && options[k] == found.value;
      assert forall i :: 0 <= i < |options| && options[i].pin == pin ==> i == k;
    }
  }

  /** On a row that says what the owner's row says, the evaluator's verdict is whether the request fits it. */
  lemma RowVerdict(codec: Codec, registry: Registry, ch: Chain, r: Row, a: OwnerRow, q: Request)
    requires AcceptedRow(codec, a) && registry.body.schema == V2 && q.rail == a.rail
    requires RowCaps(V2, r, q.rail) == Some(CapsOf(a)) && (q.rail == Bridge ==> r.bridgeOptions == BridgeOptionsOf(a))
    ensures EvaluateRow(registry, ch, r, q).Ok? <==> Fits(a, q)
    ensures EvaluateRow(registry, ch, r, q).Ok? ==>
      var adm := EvaluateRow(registry, ch, r, q).value;
      adm.row == r && adm.rail == q.rail && adm.caps.daily == a.daily
  {
    MaximumIsCap(a, codec);
    if q.rail == Bridge && BridgeOptionsOf(a).Some? && q.mechanism.Some? {
      FoundOptionIsTheOne(BridgeOptionsOf(a).value, q.mechanism.value, q.amount);
      OptionWithinMaximum(codec, a, q.mechanism.value);
    }
  }

  lemma OptionWithinMaximum(codec: Codec, a: OwnerRow, pin: ProviderPin)
    requires AcceptedRow(codec, a) && BridgeOptionsOf(a).Some?
    ensures FindOption(BridgeOptionsOf(a).value, pin).Some? ==>
      FindOption(BridgeOptionsOf(a).value, pin).value.maximum <= MAX_UINT256
  {
    var options := BridgeOptionsOf(a).value;
    if FindOption(options, pin).Some? {
      var k :| 0 <= k < |options| && options[k] == FindOption(options, pin).value;
      assert ValidBridgeOption(codec, options[k], MAX_UINT256);
    }
  }

  // ---------------------------------------------------------------- the compiler preserves meaning

  lemma WindowMeaning(inv: Inventory, o: Overlay, q: Request)
    requires Resolved(inv, o.rows)
    ensures CheckWindow(CompiledBody(inv, o), q.asOfDate, q.asOf).Ok? <==> InForce(o, q)
  {
    if q.asOf.Some? && o.effectiveAt <= q.asOf.value { DayMonotone(o.effectiveAt, q.asOf.value); }
  }

  lemma SpellsCanonical(codec: Codec, a: OwnerRow, c: Candidate, q: Request)
    requires GoodCandidate(codec, a, c) && c.kind == q.kind && (q.kind.Native? <==> q.identifier.None?)
    ensures Spells(codec, c, q.identifier) <==>
      CanonicalIdentifier(codec, c.family, q.kind, q.identifier) == Ok(c.identifier)
  {
  }

  lemma MemberFacts(codec: Codec, inv: Inventory, o: Overlay, a: OwnerRow)
    requires Accepted(codec, inv, o) && GoodInventory(codec, inv, o.rows) && a in o.rows
    ensures AcceptedRow(codec, a) && inv.resolve(a).Some? && GoodCandidate(codec, a, inv.resolve(a).value)
    ensures At(inv, o.rows, KeyOf(inv.resolve(a).value), a.rail) == Some(a)
  {
    var i :| 0 <= i < |o.rows| && o.rows[i] == a;
    assert AcceptedRow(codec, o.rows[i]);
    AtIsUnique(inv, o.rows, a, KeyOf(inv.resolve(a).value));
  }

  /** The evaluator reaches a row exactly when every lookup on the way succeeds, and then that row decides. */
  lemma EvaluateReaches(codec: Codec, registry: Registry, q: Request, ch: Chain, identifier: Option<string>, r: Row)
    requires ValidRegistry(codec, registry) && (q.kind.Native? <==> q.identifier.None?)
    requires CheckWindow(registry.body, q.asOfDate, q.asOf).Ok? && FindChain(registry.body.chains, q.chain) == Some(ch)
    requires CanonicalIdentifier(codec, ch.family, q.kind, q.identifier) == Ok(identifier)
    requires FindRow(ch.assets, q.kind, identifier) == Some(r) && q.rail in r.rails
    ensures Evaluate(codec, registry, q) == EvaluateRow(registry, ch, r, q)
  {
  }

  lemma EvaluateReached(codec: Codec, registry: Registry, q: Request)
    returns (ch: Chain, identifier: Option<string>, r: Row)
    requires Evaluate(codec, registry, q).Ok?
    ensures (q.kind.Native? <==> q.identifier.None?) && CheckWindow(registry.body, q.asOfDate, q.asOf).Ok?
    ensures FindChain(registry.body.chains, q.chain) == Some(ch)
    ensures CanonicalIdentifier(codec, ch.family, q.kind, q.identifier) == Ok(identifier)
    ensures FindRow(ch.assets, q.kind, identifier) == Some(r) && q.rail in r.rails
  {
    ch := FindChain(registry.body.chains, q.chain).value;
    identifier := CanonicalIdentifier(codec, ch.family, q.kind, q.identifier).value;
    r := FindRow(ch.assets, q.kind, identifier).value;
  }

  /** A request that names one of the owner's rows is judged on exactly that row. */
  lemma NamedVerdict(codec: Codec, inv: Inventory, o: Overlay, registry: Registry, q: Request, a: OwnerRow)
    requires Sealed(codec, inv, o, registry) && InForce(o, q) && a in o.rows && Names(codec, inv, a, q)
    ensures Evaluate(codec, registry, q).Ok? <==> Fits(a, q)
    ensures Evaluate(codec, registry, q).Ok? ==>
      var adm := Evaluate(codec, registry, q).value;
      adm.row == RowFor(inv, o.rows, inv.resolve(a).value) && adm.rail == a.rail && adm.caps.daily == a.daily
  {
    CompiledChainsAreCompiled(codec, inv, o.rows);
    FoundRow(inv, o.rows, CompiledChains(inv, o.rows), a);
    MemberFacts(codec, inv, o, a);
    var c := inv.resolve(a).value;
    var ch := FindChain(CompiledChains(inv, o.rows), c.chain).value;
    SpellsCanonical(codec, a, c, q);
    WindowMeaning(inv, o, q);
    CompiledRowOn(inv, o.rows, c, a.rail);
    EvaluateReaches(codec, registry, q, ch, c.identifier, RowFor(inv, o.rows, c));
    RowVerdict(codec, registry, ch, RowFor(inv, o.rows, c), a, q);
  }

  /** An admitted request names one of the owner's rows. */
  lemma AdmittedIsNamed(codec: Codec, inv: Inventory, o: Overlay, registry: Registry, q: Request) returns (a: OwnerRow)
    requires Sealed(codec, inv, o, registry) && Evaluate(codec, registry, q).Ok?
    ensures InForce(o, q) && a in o.rows && Names(codec, inv, a, q)
  {
    var chains := CompiledChains(inv, o.rows);
    CompiledChainsAreCompiled(codec, inv, o.rows);
    WindowMeaning(inv, o, q);
    var ch, identifier, r := EvaluateReached(codec, registry, q);
    var b := FoundIsNamed(inv, o.rows, chains, q.chain, q.kind, identifier);
    var c := inv.resolve(b).value;
    CompiledRowOn(inv, o.rows, c, q.rail);
    AtIsListed(inv, o.rows, KeyOf(c), q.rail);
    a := At(inv, o.rows, KeyOf(c), q.rail).value;
    SameAsset(inv, o.rows, a, b);
    MemberFacts(codec, inv, o, a);
    SpellsCanonical(codec, a, c, q);
  }

  /** The evaluator on the compiled registry admits a request exactly when the policy is in force and an owner row names
      the request and fits it. */
  lemma EvaluateMeaning(codec: Codec, inv: Inventory, o: Overlay, registry: Registry, q: Request)
    requires Sealed(codec, inv, o, registry)
    ensures Evaluate(codec, registry, q).Ok? <==>
      InForce(o, q) && exists a :: a in o.rows && Names(codec, inv, a, q) && Fits(a, q)
  {
    if Evaluate(codec, registry, q).Ok? {
      var a := AdmittedIsNamed(codec, inv, o, registry, q);
      NamedVerdict(codec, inv, o, registry, q, a);
    }
    if InForce(o, q) && exists a :: a in o.rows && Names(codec, inv, a, q) && Fits(a, q) {
      var a :| a in o.rows && Names(codec, inv, a, q) && Fits(a, q);
      NamedVerdict(codec, inv, o, registry, q, a);
    }
  }

  /** On an admitted request the recipient check agrees with the pin list the owner wrote for that row or
      alternative. */
  lemma RecipientMeaning(codec: Codec, inv: Inventory, o: Overlay, registry: Registry, q: Request, a: OwnerRow,
                         recipient: string)
    requires Sealed(codec, inv, o, registry) && Evaluate(codec, registry, q).Ok? && a in o.rows
      && Names(codec, inv, a, q)
    ensures RecipientAdmitted(codec, Evaluate(codec, registry, q).value, q.mechanism, recipient) ==
            Ok(Lists(codec, OwnerPins(a, q.mechanism), recipient))
  {
    var b := AdmittedIsNamed(codec, inv, o, registry, q);
    NamedVerdict(codec, inv, o, registry, q, a);
    MemberFacts(codec, inv, o, a);
    CompiledRowOn(inv, o.rows, inv.resolve(a).value, a.rail);
    PinsAgree(codec, RowFor(inv, o.rows, inv.resolve(a).value), a, q, Evaluate(codec, registry, q).value);
  }

  lemma PinsAgree(codec: Codec, r: Row, a: OwnerRow, q: Request, adm: Admission)
    requires AcceptedRow(codec, a) && Fits(a, q) && adm.row == r && adm.rail == a.rail
    requires a.rail == Bridge ==> r.bridgeOptions == BridgeOptionsOf(a)
    requires IsPinRail(a.rail) ==> (if a.rail in r.recipients then Some(r.recipients[a.rail]) else None) == a.recipients
    ensures AdmittedPins(adm, q.mechanism) == Ok(OwnerPins(a, q.mechanism))
  {
    MaximumIsCap(a, codec);
  }

  /** The sealed policy, read for one of the owner's rows: it has the asset, under the inventory's network name, family,
      symbol and decimals, and says of that rail what the owner wrote. */
  lemma CompiledSaysOwnerRow(codec: Codec, inv: Inventory, o: Overlay, registry: Registry, a: OwnerRow)
    requires Sealed(codec, inv, o, registry) && a in o.rows
    ensures var c := inv.resolve(a).value;
      var ch := FindChain(registry.body.chains, c.chain);
      && ch.Some? && ch.value.family == c.family && ch.value.name == c.networkName
      && var row := FindRow(ch.value.assets, c.kind, c.identifier);
         row.Some? && row.value.symbol == c.symbol && row.value.decimals == c.decimals
           && SaysOfRail(row.value, a.rail, Some(a))
    ensures registry.body.version == o.version && registry.body.effectiveAt == Some(o.effectiveAt)
      && registry.body.expiresAt == o.expiresAt
  {
    CompiledChainsAreCompiled(codec, inv, o.rows);
    MemberFacts(codec, inv, o, a);
    FoundRow(inv, o.rows, CompiledChains(inv, o.rows), a);
    RowSays(codec, inv, o.rows, inv.resolve(a).value, a.rail);
  }

  /** And of a rail that no owner row names for an asset, it says nothing. */
  lemma CompiledSaysNoMore(codec: Codec, inv: Inventory, o: Overlay, registry: Registry, a: OwnerRow, rail: Rail)
    requires Sealed(codec, inv, o, registry) && a in o.rows
    requires forall b :: b in o.rows && b.rail == rail ==> RowKey(inv, b) != RowKey(inv, a)
    ensures var c := inv.resolve(a).value;
      var ch := FindChain(registry.body.chains, c.chain);
      ch.Some? && var row := FindRow(ch.value.assets, c.kind, c.identifier);
        row.Some? && SaysOfRail(row.value, rail, None)
  {
    CompiledSaysOwnerRow(codec, inv, o, registry, a);
    CompiledChainsAreCompiled(codec, inv, o.rows);
    FoundRow(inv, o.rows, CompiledChains(inv, o.rows), a);
    AtIsListed(inv, o.rows, KeyOf(inv.resolve(a).value), rail);
    RowSays(codec, inv, o.rows, inv.resolve(a).value, rail);
  }
}
