/** What every sealed policy and every accepted admission list guarantees, in plain numbers. */
module PolicyLimits {
  import opened Basics
  import opened AssetPolicy
  import opened PolicyCompiler

  const MAX_AMOUNT: nat := 0x1_0000_0000_0000_0000_0000_0000_0000_0000 * 0x1_0000_0000_0000_0000_0000_0000_0000_0000 - 1

  /** One to sixteen different canonical addresses. */
  predicate PinList(codec: Codec, list: seq<string>) {
    && 1 <= |list| <= 16
    && (forall i, j :: 0 <= i < j < |list| ==> list[i] != list[j])
    && forall i :: 0 <= i < |list| ==>
         codec.recipient(list[i]).Some? && codec.recipient(list[i]).value.address == list[i]
  }

  /** A sealed policy has 1 to 64 networks of different names, each with 1 to 256 different assets, and its window does
      not end before it begins. */
  lemma SealedShape(codec: Codec, registry: Registry)
    requires ValidRegistry(codec, registry)
    ensures var b := registry.body;
      && registry.policyDigest == PolicyDigest(b) && 1 <= |b.chains| <= 64
      && (forall i, j :: 0 <= i < j < |b.chains| ==> b.chains[i].chain != b.chains[j].chain)
      && (forall i :: 0 <= i < |b.chains| ==> 1 <= |b.chains[i].assets| <= 256 && 1 <= |b.chains[i].name| <= 64)
      && (b.effectiveAt.Some? && b.expiresAt.Some? ==> b.effectiveAt.value < b.expiresAt.value)
      && (b.effectiveAt.Some? ==> Day(b.effectiveAt.value) == b.effectiveDate)
      && (b.effectiveAt.None? && b.expiresAt.Some? ==> b.effectiveDate < Day(b.expiresAt.value))
  {
    forall i | 0 <= i < |registry.body.chains|
      ensures 1 <= |registry.body.chains[i].assets| <= 256 && 1 <= |registry.body.chains[i].name| <= 64
    {
      assert ValidChain(codec, registry.body.schema, registry.body.chains[i]);
    }
  }

  /** Every row of a sealed policy: no two of a network are for one asset; each admitted rail has a positive
      per-transfer cap within its daily cap, and no other rail has one. */
  lemma SealedCaps(codec: Codec, registry: Registry, i: nat, j: nat)
    requires ValidRegistry(codec, registry) && i < |registry.body.chains| && j < |registry.body.chains[i].assets|
    requires registry.body.schema == V2
    ensures var row := registry.body.chains[i].assets[j];
      && row.railCaps.Some? && row.railCaps.value.Keys == row.rails != {} && row.caps.None?
      && (forall r | r in row.rails ::
           0 < row.railCaps.value[r].maximum <= row.railCaps.value[r].daily <= MAX_AMOUNT)
      && (row.kind == Native <==> row.identifier.None?) && 0 <= row.decimals <= 255 && 1 <= |row.symbol| <= 16
    ensures forall k :: 0 <= k < |registry.body.chains[i].assets| && k != j ==>
      var row, other := registry.body.chains[i].assets[j], registry.body.chains[i].assets[k];
      row.kind != other.kind || row.identifier != other.identifier
  {
    var ch := registry.body.chains[i];
    assert ValidChain(codec, registry.body.schema, ch);
    assert ValidRow(codec, ch.family, registry.body.schema, ch.assets[j]);
    assert MAX_AMOUNT == MAX_UINT256;
  }

  /** And its mechanisms: a swap is pinned or has 2 to 16 alternatives; a bridge has 2 to 16 or none, each within the
      bridge's own cap; a gasless recipient is one canonical EVM address on Ethereum or Base, and Coinbase's mechanism
      is only on Base and always has one; recipients are listed only for admitted direct, x402 and bridge rails. */
  lemma SealedMechanisms(codec: Codec, registry: Registry, i: nat, j: nat)
    requires ValidRegistry(codec, registry) && i < |registry.body.chains| && j < |registry.body.chains[i].assets|
    requires registry.body.schema == V2
    ensures var ch, row := registry.body.chains[i], registry.body.chains[i].assets[j];
      && Direct !in row.pins && (Swap in row.rails <==> Swap in row.pins || row.swapOptions.Some?)
      && (row.swapOptions.Some? ==>
            Swap in row.rails && Swap !in row.pins && 2 <= |row.swapOptions.value| <= 16)
      && (row.bridgeOptions.Some? ==>
            && Bridge in row.rails && Bridge !in row.pins && 2 <= |row.bridgeOptions.value| <= 16
            && row.railCaps.Some? && Bridge in row.railCaps.value
            && forall o | o in row.bridgeOptions.value ::
                 0 < o.maximum <= row.railCaps.value[Bridge].maximum
                 && (o.recipients.Some? ==> PinList(codec, o.recipients.value)))
      && (row.gaslessRecipient.Some? ==>
            && ch.chain in {"eip155:1", "eip155:8453"} && Gasless in row.rails
            && codec.recipient(row.gaslessRecipient.value) == Some(Recipient(Evm, row.gaslessRecipient.value))
            && Gasless in row.pins && row.pins[Gasless].Provider?
            && row.pins[Gasless].pin.provider in {"local", "coinbase-agentic-wallet"})
      && (Gasless in row.pins && row.pins[Gasless].Provider?
          && row.pins[Gasless].pin.provider == "coinbase-agentic-wallet" ==>
            ch.chain == "eip155:8453" && row.gaslessRecipient.Some?)
      && (forall r | r in row.recipients ::
           r in {Direct, X402, Bridge} && r in row.rails && PinList(codec, row.recipients[r])
           && (r == Bridge ==> row.bridgeOptions.None?))
  {
    var ch := registry.body.chains[i];
    assert ValidChain(codec, registry.body.schema, ch);
    assert ValidRow(codec, ch.family, registry.body.schema, ch.assets[j]);
    assert ValidRowOnChain(ch.chain, ch.assets[j]);
    var row := ch.assets[j];
    if row.bridgeOptions.Some? {
      forall o | o in row.bridgeOptions.value
        ensures 0 < o.maximum <= row.railCaps.value[Bridge].maximum
          && (o.recipients.Some? ==> PinList(codec, o.recipients.value))
      {
        var k :| 0 <= k < |row.bridgeOptions.value| && row.bridgeOptions.value[k] == o;
        assert ValidBridgeOption(codec, row.bridgeOptions.value[k], row.railCaps.value[Bridge].maximum);
      }
    }
  }

  // ---------------------------------------------------------------- what the owner may write

  /** A provider and a reference, each 1 to 256 letters, digits and pin punctuation, beginning with a letter or
      digit. */
  predicate PinTexts(pin: ProviderPin) { PinText(pin.provider) && PinText(pin.reference) }

  predicate PinText(s: string) {
    && 1 <= |s| <= 256 && s[0] !in "._:/@+-"
    && forall i :: 0 <= i < |s| ==>
         'a' <= s[i] <= 'z' || 'A' <= s[i] <= 'Z' || '0' <= s[i] <= '9' || s[i] in "._:/@+-"
  }

  /** One way of transfer: none to pin for a direct one, the pinned route of a swap, the pinned provider of the rest. */
  predicate OneMechanism(codec: Codec, a: OwnerRow) {
    if a.rail == Direct then a.mechanism.None?
    else if a.rail == Swap then
      a.mechanism.Some? && a.mechanism.value.SwapPin? && codec.swapValid(a.mechanism.value.swap)
    else a.mechanism.Some? && a.mechanism.value.Provider? && PinTexts(a.mechanism.value.pin)
  }

  predicate UsesProvider(a: OwnerRow, provider: string) {
    a.mechanism.Some? && a.mechanism.value.Provider? && a.mechanism.value.pin.provider == provider
  }

  /** A gasless recipient is one canonical EVM address, on Ethereum or Base with the local provider or on Base with
      Coinbase's, which always has one. */
  predicate GaslessRecipient(codec: Codec, a: OwnerRow) {
    && (a.recipient.Some? ==>
          && a.rail == Gasless && codec.recipient(a.recipient.value) == Some(Recipient(Evm, a.recipient.value))
          && ((a.chain in {"eip155:1", "eip155:8453"} && UsesProvider(a, "local"))
              || (a.chain == "eip155:8453" && UsesProvider(a, "coinbase-agentic-wallet"))))
    && (a.rail == Gasless && UsesProvider(a, "coinbase-agentic-wallet") ==>
          a.chain == "eip155:8453" && a.recipient.Some?)
  }

  /** Listed recipients are for direct, x402 and bridge rows; of the network's family, except that a bridge's may be of
      any. */
  predicate ListedRecipients(codec: Codec, a: OwnerRow) {
    a.recipients.Some? ==>
      && a.rail in {Direct, X402, Bridge} && PinList(codec, a.recipients.value)
      && (a.rail != Bridge && PolicyFamily(a.chain).Some? ==>
            forall r | r in a.recipients.value :: codec.recipient(r).value.family == PolicyFamily(a.chain).value)
  }

  predicate Routes(codec: Codec, routes: seq<SwapMechanism>) {
    && 2 <= |routes| <= 16
    && (forall i :: 0 <= i < |routes| ==> codec.swapValid(routes[i]))
    && (forall i, j :: 0 <= i < j < |routes| ==> RouteOf(routes[i]) != RouteOf(routes[j]))
  }

  predicate Bridges(codec: Codec, options: seq<BridgeOption>, daily: nat) {
    && 2 <= |options| <= 16
    && (forall i :: 0 <= i < |options| ==>
         && PinTexts(options[i].pin) && 0 < options[i].maximum <= daily
         && (options[i].recipients.Some? ==> PinList(codec, options[i].recipients.value)))
    && (forall i, j :: 0 <= i < j < |options| ==> options[i].pin != options[j].pin)
  }

  /** What the owner may write in one row, exactly: a positive amount within the daily cap by one way of transfer, or,
      for swaps and bridges alone, 2 to 16 different ones without recipients of the row's own. */
  lemma AcceptedRowMeaning(codec: Codec, a: OwnerRow)
    ensures AcceptedRow(codec, a) <==>
      && a.daily <= MAX_AMOUNT
      && match a.alternatives
         case None =>
           && a.maximum.Some? && 0 < a.maximum.value <= a.daily
           && OneMechanism(codec, a) && GaslessRecipient(codec, a) && ListedRecipients(codec, a)
         case Some(SwapAlternatives(routes)) =>
           && a.rail == Swap && a.maximum.Some? && 0 < a.maximum.value <= a.daily && Routes(codec, routes)
           && a.mechanism.None? && a.recipient.None? && a.recipients.None?
         case Some(BridgeAlternatives(options)) =>
           && a.rail == Bridge && a.maximum.None? && Bridges(codec, options, a.daily)
           && a.mechanism.None? && a.recipient.None? && a.recipients.None?
  {
    assert MAX_AMOUNT == MAX_UINT256;
    match a.alternatives
    case None => SingleMeaning(codec, a);
    case Some(SwapAlternatives(_)) =>
    case Some(BridgeAlternatives(options)) =>
      if a.daily <= MAX_AMOUNT { BridgesMeaning(codec, options, a.daily); }
  }

  lemma PinTextMeaning(s: string)
    ensures IsPinText(s) <==> PinText(s)
  {
  }

  lemma SingleMeaning(codec: Codec, a: OwnerRow)
    ensures AcceptedSingle(codec, a) <==>
      && a.maximum.Some? && 0 < a.maximum.value <= a.daily <= MAX_UINT256
      && OneMechanism(codec, a) && GaslessRecipient(codec, a) && ListedRecipients(codec, a)
  {
    if a.mechanism.Some? && a.mechanism.value.Provider? {
      PinTextMeaning(a.mechanism.value.pin.provider);
      PinTextMeaning(a.mechanism.value.pin.reference);
    }
    if a.recipients.Some? {
      PinListMeaning(codec, a.recipients.value, if a.rail == Bridge then None else PolicyFamily(a.chain));
    }
  }

  lemma PinListMeaning(codec: Codec, list: seq<string>, family: Option<Family>)
    ensures ValidRecipientPins(codec, list, family) <==>
      PinList(codec, list)
        && (family.Some? ==>
             forall r | r in list :: codec.recipient(r).Some? && codec.recipient(r).value.family == family.value)
  {
  }

  lemma BridgesMeaning(codec: Codec, options: seq<BridgeOption>, daily: nat)
    requires daily <= MAX_UINT256
    ensures Bridges(codec, options, daily) <==>
      && 2 <= |options| <= 16
      && (forall i :: 0 <= i < |options| ==> ValidBridgeOption(codec, options[i], MAX_UINT256))
      && (forall i, j :: 0 <= i < j < |options| ==> options[i].pin != options[j].pin)
      && CapPair(MaximumOf(options), daily)
  {
    LargestIsLargest(options);
    forall i | 0 <= i < |options|
      ensures PinTexts(options[i].pin) && (options[i].recipients.Some? ==> PinList(codec, options[i].recipients.value))
        <==> (IsPinText(options[i].pin.provider) && IsPinText(options[i].pin.reference)
              && (options[i].recipients.Some? ==> ValidRecipientPins(codec, options[i].recipients.value, None)))
    {
      PinTextMeaning(options[i].pin.provider);
      PinTextMeaning(options[i].pin.reference);
      if options[i].recipients.Some? { PinListMeaning(codec, options[i].recipients.value, None); }
    }
    forall i | 0 <= i < |options| ensures options[i].maximum <= MaximumOf(options) { assert options[i] in options; }
    if options != [] {
      var o :| o in options && o.maximum == MaximumOf(options);
      var k :| 0 <= k < |options| && options[k] == o;
    }
  }

  /** An accepted list has a version, a window, and 1 to 256 rows, each for an asset the inventory knows, no two for one
      asset on one rail, every swap on its own network. */
  lemma AcceptedListMeaning(codec: Codec, inv: Inventory, o: Overlay)
    requires Accepted(codec, inv, o)
    ensures 1 <= |o.version| <= 64 && (o.expiresAt.Some? ==> o.effectiveAt < o.expiresAt.value) && 1 <= |o.rows| <= 256
    ensures forall a | a in o.rows ::
      inv.resolve(a).Some? && AcceptedRow(codec, a) && SwapsAtHome(a, inv.resolve(a).value.chain)
    ensures forall i, j :: 0 <= i < j < |o.rows| && o.rows[i].rail == o.rows[j].rail ==>
      RowKey(inv, o.rows[i]) != RowKey(inv, o.rows[j])
  {
    forall a | a in o.rows
      ensures inv.resolve(a).Some? && AcceptedRow(codec, a) && SwapsAtHome(a, inv.resolve(a).value.chain)
    {
      var i :| 0 <= i < |o.rows| && o.rows[i] == a;
      assert AcceptedRow(codec, o.rows[i]) && SwapOnChain(o.rows[i], Cand(inv, o.rows[i]).chain);
    }
  }

  /** And one valid owner account for exactly the families its assets are of. */
  lemma AcceptedAccounts(codec: Codec, inv: Inventory, o: Overlay, f: Family)
    requires Accepted(codec, inv, o)
    ensures f in o.accounts <==> exists i :: 0 <= i < |o.rows| && Cand(inv, o.rows[i]).family == f
    ensures f in o.accounts ==> codec.owner(f, o.accounts[f])
  {
    assert f in o.accounts <==> f in Families(inv, o.rows);
  }

  /** Every mechanism an admitted swap may use is on the asset's own network. */
  predicate SwapsAtHome(a: OwnerRow, chain: string) {
    a.rail == Swap ==>
      && (a.mechanism.Some? ==> a.mechanism.value.SwapPin? && a.mechanism.value.swap.chain == chain)
      && (a.alternatives.Some? && a.alternatives.value.SwapAlternatives? ==>
            forall m | m in a.alternatives.value.swap :: m.chain == chain)
  }

  /** A network's family is the namespace of its name. */
  lemma FamilyMeaning(chain: string)
    ensures PolicyFamily(chain) == Some(Evm) <==> "eip155:" <= chain
    ensures PolicyFamily(chain) == Some(Solana) <==> "solana:" <= chain
    ensures PolicyFamily(chain) == Some(Tron) <==> "tron:" <= chain
  {
    assert "eip155:"[0] == 'e' && "solana:"[0] == 's' && "tron:"[0] == 't';
  }

  lemma {:induction false} LargestIsLargest(options: seq<BridgeOption>)
    ensures forall o | o in options :: o.maximum <= MaximumOf(options)
    ensures options != [] ==> exists o | o in options :: o.maximum == MaximumOf(options)
    decreases |options|
  {
    if options != [] {
      var init, last := options[..|options| - 1], options[|options| - 1];
      LargestIsLargest(init);
      assert forall o :: o in options <==> o in init || o == last;
    }
  }
}
