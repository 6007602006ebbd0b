/** Every accepted admission list compiles to a registry the validator accepts, unless it spans more than 64
    networks. */
module PolicyValidity {
  import opened Basics
  import opened AssetPolicy
  import opened PolicyCompiler
  import opened PolicyGrouping
  import opened CompiledRegistry
  import opened PolicyMeaning
  import opened Order = CodeUnitOrder

  // ---------------------------------------------------------------- one row

  lemma MaximumCovers(options: seq<BridgeOption>, i: nat)
    requires i < |options|
    ensures options[i].maximum <= MaximumOf(options)
    decreases |options|
  {
    if i < |options| - 1 { MaximumCovers(options[..|options| - 1], i); }
  }

  lemma LaneRow(codec: Codec, inv: Inventory, o: Overlay, c: Candidate, rail: Rail)
    requires Accepted(codec, inv, o) && GoodInventory(codec, inv, o.rows)
    ensures var a := LanesOf(inv, o.rows, KeyOf(c)).On(rail);
      a.Some? ==> AcceptedRow(codec, a.value) && a.value.rail == rail && a.value.chain == c.chain
  {
    AtIsListed(inv, o.rows, KeyOf(c), rail);
    var a := At(inv, o.rows, KeyOf(c), rail);
    if a.Some? { MemberFacts(codec, inv, o, a.value); }
  }

  /** Each lane of an asset holds an accepted row of that rail on the asset's network. */
  ghost predicate GoodLanes(codec: Codec, chain: string, l: Lanes) {
    forall rail: Rail ::
      l.On(rail).Some? ==>
        AcceptedRow(codec, l.On(rail).value) && l.On(rail).value.rail == rail && l.On(rail).value.chain == chain
  }

  lemma CapsAreValid(codec: Codec, c: Candidate, l: Lanes, rail: Rail)
    requires GoodLanes(codec, c.chain, l) && l.On(rail).Some?
    ensures ValidRowCaps(V2, RowFrom(c, l))
  {
    assert rail in RailsOf(l);
    forall r | r in RailsOf(l) ensures ValidCaps(CapsMap(l)[r]) { assert AcceptedRow(codec, l.On(r).value); }
    assert CapsMap(l).Keys == RailsOf(l);
  }

  lemma PinsAreValid(codec: Codec, c: Candidate, l: Lanes)
    requires GoodLanes(codec, c.chain, l)
    ensures forall r | r in RowFrom(c, l).pins :: ValidPin(codec, r, RowFrom(c, l).pins[r])
  {
    forall r | r in PinsOf(l) ensures ValidPin(codec, r, PinsOf(l)[r]) { assert AcceptedRow(codec, l.On(r).value); }
  }

  lemma RecipientsAreValid(codec: Codec, c: Candidate, l: Lanes)
    requires GoodLanes(codec, c.chain, l) && PolicyFamily(c.chain) == Some(c.family)
    ensures ValidRecipients(codec, c.family, RowFrom(c, l))
  {
    forall r | r in RecipientsOf(l)
      ensures r in {Direct, X402, Bridge} && r in RailsOf(l) && !(r == Bridge && RowFrom(c, l).bridgeOptions.Some?)
      ensures ValidRecipientPins(codec, RecipientsOf(l)[r], if r == Bridge then None else Some(c.family))
    {
      assert AcceptedRow(codec, l.On(r).value);
    }
  }

  lemma GaslessIsValid(codec: Codec, c: Candidate, l: Lanes)
    requires GoodLanes(codec, c.chain, l) && PolicyFamily(c.chain) == Some(c.family)
    ensures ValidGaslessRecipient(codec, c.family, RowFrom(c, l)) && ValidRowOnChain(c.chain, RowFrom(c, l))
  {
    var g := l.On(Gasless);
    if g.Some? { assert AcceptedRow(codec, g.value) && g.value.rail == Gasless && g.value.chain == c.chain; }
    assert "eip155:" <= ETHEREUM_CHAIN && "eip155:" <= BASE_CHAIN;
  }

  lemma BridgeIsValid(codec: Codec, c: Candidate, l: Lanes)
    requires GoodLanes(codec, c.chain, l) && RowFrom(c, l).bridgeOptions.Some?
    ensures ValidBridgeOptions(codec, RowFrom(c, l), RowFrom(c, l).bridgeOptions.value)
  {
    var a := l.On(Bridge).value;
    assert AcceptedRow(codec, a);
    var options := RowFrom(c, l).bridgeOptions.value;
    assert CapsMap(l)[Bridge] == CapsOf(a);
    forall i | 0 <= i < |options| ensures ValidBridgeOption(codec, options[i], CapsOf(a).maximum) {
      MaximumCovers(options, i);
    }
  }

  lemma SwapIsValid(codec: Codec, c: Candidate, l: Lanes)
    requires GoodLanes(codec, c.chain, l)
    ensures var r := RowFrom(c, l);
      && (r.swapOptions.Some? ==> ValidSwapOptions(codec, r, r.swapOptions.value))
      && (Swap in r.rails <==> Swap in r.pins || r.swapOptions.Some?)
  {
    var s := l.On(Swap);
    if s.Some? { assert AcceptedRow(codec, s.value) && s.value.rail == Swap; }
  }

  /** The row compiled for an asset the owner named is valid on its network. */
  lemma RowIsValid(codec: Codec, inv: Inventory, o: Overlay, a: OwnerRow)
    requires Accepted(codec, inv, o) && GoodInventory(codec, inv, o.rows) && a in o.rows && inv.resolve(a).Some?
    ensures var c := inv.resolve(a).value; var r := RowFor(inv, o.rows, c);
      ValidRow(codec, c.family, V2, r) && ValidRowOnChain(c.chain, r)
  {
    MemberFacts(codec, inv, o, a);
    var c := inv.resolve(a).value;
    var l := LanesOf(inv, o.rows, KeyOf(c));
    forall rail: Rail { LaneRow(codec, inv, o, c, rail); }
    assert l.On(a.rail) == Some(a);
    LanesAreValid(codec, a, c, l);
  }

  lemma LanesAreValid(codec: Codec, a: OwnerRow, c: Candidate, l: Lanes)
    requires GoodLanes(codec, c.chain, l) && GoodCandidate(codec, a, c) && l.On(a.rail) == Some(a)
    ensures ValidRow(codec, c.family, V2, RowFrom(c, l)) && ValidRowOnChain(c.chain, RowFrom(c, l))
  {
    CapsAreValid(codec, c, l, a.rail);
    PinsAreValid(codec, c, l);
    RecipientsAreValid(codec, c, l);
    GaslessIsValid(codec, c, l);
    if RowFrom(c, l).bridgeOptions.Some? { BridgeIsValid(codec, c, l); }
    SwapIsValid(codec, c, l);
  }

  // ---------------------------------------------------------------- counting

  lemma {:induction false} DistinctCount<T>(s: seq<T>)
    requires Distinct(s)
    ensures |set x | x in s| == |s|
    decreases |s|
  {
    if s != [] {
      var rest := s[..|s| - 1];
      DistinctCount(rest);
      assert (set x | x in s) == (set x | x in rest) + {s[|s| - 1]};
    }
  }

  lemma {:induction false} AtMostLength<T>(s: seq<T>)
    ensures |set x | x in s| <= |s|
    decreases |s|
  {
    if s != [] {
      var rest := s[..|s| - 1];
      AtMostLength(rest);
      assert (set x | x in s) == (set x | x in rest) + {s[|s| - 1]};
    }
  }

  lemma {:induction false} SubsetIsSmaller<T>(a: set<T>, b: set<T>)
    requires a <= b
    ensures |a| <= |b|
    decreases |a|
  {
    if a != {} {
      var x :| x in a;
      SubsetIsSmaller(a - {x}, b - {x});
    }
  }

  /** The identities the owner's rows resolve to, and the networks they are on. */
  ghost function Keys(inv: Inventory, rows: seq<OwnerRow>): (k: seq<Key>)
    requires Resolved(inv, rows)
    ensures |k| == |rows| && forall i :: 0 <= i < |rows| ==> k[i] == KeyOf(Cand(inv, rows[i]))
  {
    seq(|rows|, i requires 0 <= i < |rows| => KeyOf(Cand(inv, rows[i])))
  }

  ghost function Networks(inv: Inventory, rows: seq<OwnerRow>): set<string>
    requires Resolved(inv, rows)
  {
    set i | 0 <= i < |rows| :: Cand(inv, rows[i]).chain
  }

  ghost function ChainNames(chains: seq<Chain>): (n: seq<string>)
    ensures |n| == |chains| && forall i :: 0 <= i < |chains| ==> n[i] == chains[i].chain
  {
    seq(|chains|, i requires 0 <= i < |chains| => chains[i].chain)
  }

  ghost function AssetKeys(chain: string, rows: seq<Row>): (k: seq<Key>)
    ensures |k| == |rows| && forall i :: 0 <= i < |rows| ==> k[i] == Key(chain, rows[i].kind, rows[i].identifier)
  {
    seq(|rows|, i requires 0 <= i < |rows| => Key(chain, rows[i].kind, rows[i].identifier))
  }

  lemma ChainOnNetwork(inv: Inventory, rows: seq<OwnerRow>, chains: seq<Chain>, i: nat)
    requires IsCompiled(inv, rows, chains) && Resolved(inv, rows) && i < |chains|
    ensures chains[i].chain in Networks(inv, rows)
  {
    var a := ChainIsNamed(inv, rows, chains, chains[i]);
    var j :| 0 <= j < |rows| && rows[j] == a;
    assert Cand(inv, rows[j]).chain == chains[i].chain;
  }

  lemma NetworkHasChain(inv: Inventory, rows: seq<OwnerRow>, chains: seq<Chain>, n: string)
    requires IsCompiled(inv, rows, chains) && Coherent(inv, rows) && Resolved(inv, rows) && n in Networks(inv, rows)
    ensures n in ChainNames(chains)
  {
    var j :| 0 <= j < |rows| && Cand(inv, rows[j]).chain == n;
    FoundRow(inv, rows, chains, rows[j]);
    var k :| 0 <= k < |chains| && chains[k] == FindChain(chains, n).value;
    assert ChainNames(chains)[k] == n;
  }

  lemma NamesDistinct(chains: seq<Chain>)
    requires DistinctChains(chains)
    ensures Distinct(ChainNames(chains))
  {
  }

  lemma CountOf<T>(s: seq<T>, all: set<T>)
    requires Distinct(s) && (forall x :: x in s ==> x in all) && (forall x :: x in all ==> x in s)
    ensures |all| == |s|
  {
    DistinctCount(s);
    assert (set x | x in s) == all;
  }

  lemma NamesAreNetworks(inv: Inventory, rows: seq<OwnerRow>, chains: seq<Chain>, n: string)
    requires IsCompiled(inv, rows, chains) && Resolved(inv, rows) && n in ChainNames(chains)
    ensures n in Networks(inv, rows)
  {
    var i :| 0 <= i < |chains| && ChainNames(chains)[i] == n;
    ChainOnNetwork(inv, rows, chains, i);
  }

  lemma CompiledNamesDistinct(inv: Inventory, rows: seq<OwnerRow>, chains: seq<Chain>)
    requires IsCompiled(inv, rows, chains)
    ensures Distinct(ChainNames(chains))
  {
    AscendingChainsDistinct(chains);
    NamesDistinct(chains);
  }

  /** One compiled chain for each network named. */
  lemma ChainCount(inv: Inventory, rows: seq<OwnerRow>, chains: seq<Chain>)
    requires IsCompiled(inv, rows, chains) && Coherent(inv, rows) && Resolved(inv, rows)
    ensures |chains| == |Networks(inv, rows)|
  {
    var names, networks := ChainNames(chains), Networks(inv, rows);
    CompiledNamesDistinct(inv, rows, chains);
    forall n | n in names ensures n in networks { NamesAreNetworks(inv, rows, chains, n); }
    forall n | n in networks ensures n in names { NetworkHasChain(inv, rows, chains, n); }
    CountOf(names, networks);
  }

  lemma SortedRowsDistinct(chain: string, rows: seq<Row>)
    requires Ascending(KeyedRows(rows))
    ensures Distinct(AssetKeys(chain, rows))
    ensures forall i, j ::
      0 <= i < j < |rows| ==> (rows[i].kind, rows[i].identifier) != (rows[j].kind, rows[j].identifier)
  {
    AscendingDistinct(KeyedRows(rows));
    forall i, j | 0 <= i < j < |rows|
      ensures Key(chain, rows[i].kind, rows[i].identifier) != Key(chain, rows[j].kind, rows[j].identifier)
    {
      assert KeyedRows(rows)[i].key != KeyedRows(rows)[j].key;
    }
  }

  lemma AssetCount(inv: Inventory, rows: seq<OwnerRow>, c: Chain)
    requires CompiledChain(inv, rows, c) && Resolved(inv, rows)
    ensures |c.assets| <= |rows|
  {
    var keys := AssetKeys(c.chain, c.assets);
    SortedRowsDistinct(c.chain, c.assets);
    DistinctCount(keys);
    forall k | k in keys ensures k in Keys(inv, rows) {
      var i :| 0 <= i < |keys| && keys[i] == k;
      assert Listed(inv, rows, c.chain, c.assets[i]);
      var a :| a in rows && inv.resolve(a).Some? && inv.resolve(a).value.chain == c.chain
        && c.assets[i] == RowFor(inv, rows, inv.resolve(a).value);
      var j :| 0 <= j < |rows| && rows[j] == a;
      assert Keys(inv, rows)[j] == k;
    }
    SubsetIsSmaller((set k | k in keys), (set k | k in Keys(inv, rows)));
    AtMostLength(Keys(inv, rows));
  }

  // ---------------------------------------------------------------- the whole registry

  lemma ChainIsValid(codec: Codec, inv: Inventory, o: Overlay, chains: seq<Chain>, i: nat)
    requires Accepted(codec, inv, o) && GoodInventory(codec, inv, o.rows) && Coherent(inv, o.rows)
    requires IsCompiled(inv, o.rows, chains) && i < |chains|
    ensures ValidChain(codec, V2, chains[i])
  {
    var c := chains[i];
    assert CompiledChain(inv, o.rows, c);
    AssetCount(inv, o.rows, c);
    SortedRowsDistinct(c.chain, c.assets);
    var n := ChainIsNamed(inv, o.rows, chains, c);
    MemberFacts(codec, inv, o, n);
    forall j | 0 <= j < |c.assets|
      ensures ValidRow(codec, c.family, V2, c.assets[j]) && ValidRowOnChain(c.chain, c.assets[j])
    {
      var a := ListedRow(inv, o.rows, chains, c, c.assets[j]);
      SameAsset(inv, o.rows, a, n);
      RowIsValid(codec, inv, o, a);
    }
  }

  lemma BodyIsValid(codec: Codec, o: Overlay, chains: seq<Chain>)
    requires IsVersion(o.version) && (o.expiresAt.Some? ==> o.expiresAt.value > o.effectiveAt)
    requires DistinctChains(chains) && chains != []
      && forall i :: 0 <= i < |chains| ==> ValidChain(codec, V2, chains[i])
    ensures var body :=
      RegistryBody(V2, o.version, o.effectiveAt, Day(o.effectiveAt), Some(o.effectiveAt), o.expiresAt, chains);
      ValidBody(codec, body) <==> |chains| <= MAX_CHAINS
  {
  }

  lemma SomeNetwork(inv: Inventory, rows: seq<OwnerRow>)
    requires Resolved(inv, rows) && rows != []
    ensures |Networks(inv, rows)| > 0
  {
    assert Cand(inv, rows[0]).chain in Networks(inv, rows);
  }

  /** An accepted overlay compiles to a valid registry exactly when its rows are on at most 64 networks. */
  lemma CompiledIsValid(codec: Codec, inv: Inventory, o: Overlay)
    requires Accepted(codec, inv, o) && GoodInventory(codec, inv, o.rows) && Coherent(inv, o.rows)
    ensures ValidBody(codec, CompiledBody(inv, o)) <==> |Networks(inv, o.rows)| <= MAX_CHAINS
  {
    var chains := CompiledChains(inv, o.rows);
    CompiledChainsAreCompiled(codec, inv, o.rows);
    ChainCount(inv, o.rows, chains);
    SomeNetwork(inv, o.rows);
    AscendingChainsDistinct(chains);
    forall i | 0 <= i < |chains| ensures ValidChain(codec, V2, chains[i]) { ChainIsValid(codec, inv, o, chains, i); }
    BodyIsValid(codec, o, chains);
  }

  /** The same for sealing, which then binds the body's digest. */
  lemma CompiledSeals(codec: Codec, inv: Inventory, o: Overlay)
    requires Accepted(codec, inv, o) && GoodInventory(codec, inv, o.rows) && Coherent(inv, o.rows)
    ensures Seal(codec, CompiledBody(inv, o)).Ok? <==> |Networks(inv, o.rows)| <= MAX_CHAINS
    ensures Seal(codec, CompiledBody(inv, o)).Err? ==> Seal(codec, CompiledBody(inv, o)) == Err(InvalidInput)
  {
    CompiledIsValid(codec, inv, o);
  }

  // ---------------------------------------------------------------- which inventories ever meet the limit

  /** Every asset of the inventory is well formed, and any two agree on their network and asset. */
  ghost predicate SoundInventory(codec: Codec, inv: Inventory) {
    && (forall a: OwnerRow :: inv.resolve(a).Some? ==> GoodCandidate(codec, a, inv.resolve(a).value))
    && (forall a: OwnerRow, b: OwnerRow :: inv.resolve(a).Some? && inv.resolve(b).Some? ==>
          SameNetwork(inv.resolve(a).value, inv.resolve(b).value))
  }

  /** The owner's row admitting a network's native coin for direct transfers. */
  function NativeRow(chain: string): OwnerRow {
    OwnerRow(chain, Native, None, Direct, Some(1), 1, None, None, None, None)
  }

  /** The networks of an inventory: all its assets are on them, and each has its native coin. */
  ghost predicate Lists(inv: Inventory, names: set<string>) {
    && (forall a: OwnerRow :: inv.resolve(a).Some? ==> inv.resolve(a).value.chain in names)
    && (forall n :: n in names ==> inv.resolve(NativeRow(n)).Some?)
  }

  /** One account of every family, which the codec accepts. */
  ghost predicate GoodAccounts(codec: Codec, accounts: map<Family, string>) {
    accounts.Keys == {Evm, Solana, Tron} && forall f | f in accounts :: codec.owner(f, accounts[f])
  }

  function NativeRows(names: seq<string>): (rows: seq<OwnerRow>)
    ensures |rows| == |names| && forall i :: 0 <= i < |names| ==> rows[i] == NativeRow(names[i])
  {
    seq(|names|, i requires 0 <= i < |names| => NativeRow(names[i]))
  }

  /** The list that admits the native coin of each of these networks. */
  ghost function NetworkList(inv: Inventory, accounts: map<Family, string>, names: seq<string>): Overlay
    requires Resolved(inv, NativeRows(names)) && accounts.Keys == {Evm, Solana, Tron}
  {
    var families := Families(inv, NativeRows(names));
    Overlay("v1", map f | f in accounts && f in families :: accounts[f], 0, None, NativeRows(names))
  }

  lemma NetworkListIsAccepted(codec: Codec, inv: Inventory, accounts: map<Family, string>, names: seq<string>)
    requires SoundInventory(codec, inv) && GoodAccounts(codec, accounts) && Resolved(inv, NativeRows(names))
    requires Distinct(names) && 1 <= |names| <= MAX_ADMISSIONS
    ensures Accepted(codec, inv, NetworkList(inv, accounts, names))
  {
    var rows, o := NativeRows(names), NetworkList(inv, accounts, names);
    forall i | 0 <= i < |rows| ensures AcceptedRow(codec, rows[i]) && Cand(inv, rows[i]).chain == names[i] {
      assert GoodCandidate(codec, rows[i], Cand(inv, rows[i]));
    }
    forall i, j | 0 <= i < j < |rows| ensures RowKey(inv, rows[i]) != RowKey(inv, rows[j]) {
      assert KeyOf(Cand(inv, rows[i])).chain != KeyOf(Cand(inv, rows[j])).chain;
    }
    assert o.accounts.Keys == Families(inv, rows) by {
      forall f: Family ensures f in accounts { assert f.Evm? || f.Solana? || f.Tron?; }
    }
    assert IsVersion("v1");
  }

  lemma NetworkListNetworks(codec: Codec, inv: Inventory, names: seq<string>)
    requires SoundInventory(codec, inv) && Resolved(inv, NativeRows(names)) && Distinct(names)
    ensures |Networks(inv, NativeRows(names))| == |names|
  {
    var rows := NativeRows(names);
    forall i | 0 <= i < |rows| ensures Cand(inv, rows[i]).chain == names[i] {
      assert GoodCandidate(codec, rows[i], Cand(inv, rows[i]));
    }
    forall x | x in names ensures x in Networks(inv, rows) {
      var k :| 0 <= k < |names| && names[k] == x;
      assert Cand(inv, rows[k]).chain == x;
    }
    forall x | x in Networks(inv, rows) ensures x in names {
      var k :| 0 <= k < |rows| && Cand(inv, rows[k]).chain == x;
      assert names[k] == x;
    }
    CountOf(names, Networks(inv, rows));
  }

  /** A list naming up to 256 distinct networks of an inventory is always accepted, and seals exactly up to 64 of them;
      beyond that it is refused only when its registry is sealed. */
  lemma NetworkListSeals(codec: Codec, inv: Inventory, accounts: map<Family, string>, names: seq<string>)
    requires SoundInventory(codec, inv) && GoodAccounts(codec, accounts) && Resolved(inv, NativeRows(names))
    requires Distinct(names) && 1 <= |names| <= MAX_ADMISSIONS
    ensures var o := NetworkList(inv, accounts, names);
      Accepted(codec, inv, o) && (Seal(codec, CompiledBody(inv, o)) == Err(InvalidInput) <==> |names| > MAX_CHAINS)
  {
    var o := NetworkList(inv, accounts, names);
    NetworkListIsAccepted(codec, inv, accounts, names);
    NetworkListNetworks(codec, inv, names);
    SoundOnRows(codec, inv, o.rows);
    CompiledSeals(codec, inv, o);
  }

  lemma SoundOnRows(codec: Codec, inv: Inventory, rows: seq<OwnerRow>)
    requires SoundInventory(codec, inv)
    ensures GoodInventory(codec, inv, rows) && Coherent(inv, rows)
  {
  }

  lemma {:induction false} DistinctSample(all: set<string>, n: nat) returns (s: seq<string>)
    requires n <= |all|
    ensures |s| == n && Distinct(s) && forall x :: x in s ==> x in all
    decreases n
  {
    s := [];
    if n > 0 {
      var x :| x in all;
      var rest := DistinctSample(all - {x}, n - 1);
      s := rest + [x];
    }
  }

  lemma FewNetworksSeal(codec: Codec, inv: Inventory, names: set<string>, o: Overlay)
    requires SoundInventory(codec, inv) && Lists(inv, names) && |names| <= MAX_CHAINS && Accepted(codec, inv, o)
    ensures Seal(codec, CompiledBody(inv, o)).Ok?
  {
    SoundOnRows(codec, inv, o.rows);
    SubsetIsSmaller(Networks(inv, o.rows), names);
    CompiledSeals(codec, inv, o);
  }

  /** Every list the owner may write over an inventory seals if and only if the inventory has at most 64 networks. */
  lemma EveryListSealsIffFewNetworks(
      codec: Codec, inv: Inventory, names: set<string>, accounts: map<Family, string>)
    requires SoundInventory(codec, inv) && Lists(inv, names) && GoodAccounts(codec, accounts)
    ensures |names| <= MAX_CHAINS <==>
      forall o: Overlay :: Accepted(codec, inv, o) ==> Seal(codec, CompiledBody(inv, o)).Ok?
  {
    if |names| <= MAX_CHAINS {
      forall o: Overlay | Accepted(codec, inv, o) ensures Seal(codec, CompiledBody(inv, o)).Ok? {
        FewNetworksSeal(codec, inv, names, o);
      }
    } else {
      var s := DistinctSample(names, MAX_CHAINS + 1);
      forall i | 0 <= i < |s| ensures inv.resolve(NativeRow(s[i])).Some? { assert s[i] in names; }
      NetworkListSeals(codec, inv, accounts, s);
    }
  }

  // ---------------------------------------------------------------- an inventory beyond the limit

  /** The chain identifiers eip155:10 to eip155:99. */
  predicate IsSampleChain(s: string) { |s| == 9 && s[..7] == "eip155:" && '1' <= s[7] <= '9' && '0' <= s[8] <= '9' }

  function SampleChain(k: nat): (s: string)
    requires k < 90
    ensures IsSampleChain(s)
  {
    "eip155:" + [(49 + k / 10) as char, (48 + k % 10) as char]
  }

  function SampleChains(n: nat): (names: seq<string>)
    requires n <= 90
    ensures |names| == n && forall k :: 0 <= k < n ==> names[k] == SampleChain(k)
  {
    seq(n, k requires 0 <= k < n => SampleChain(k))
  }

  const SAMPLE_INVENTORY := Inventory((a: OwnerRow) =>
    if IsSampleChain(a.chain) && a.kind == Native && a.identifier == None then
      Some(Candidate(a.chain, Native, None, Evm, "Sample", "ETH", 18))
    else None)

  lemma SampleChainsDiffer(n: nat)
    requires n <= 90
    ensures Distinct(SampleChains(n))
  {
    forall i, j | 0 <= i < j < n ensures SampleChain(i) != SampleChain(j) {
      assert SampleChain(i)[7] == (49 + i / 10) as char && SampleChain(i)[8] == (48 + i % 10) as char;
      assert SampleChain(j)[7] == (49 + j / 10) as char && SampleChain(j)[8] == (48 + j % 10) as char;
    }
  }

  /** The inventory of those ninety chains is sound for every codec that takes their identifiers for canonical. */
  lemma SampleIsSound(codec: Codec)
    requires forall s :: IsSampleChain(s) ==> codec.chainCanonical(Evm, s)
    ensures SoundInventory(codec, SAMPLE_INVENTORY)
  {
    assert IsNetworkName("Sample") && IsSymbol("ETH");
    forall a: OwnerRow | SAMPLE_INVENTORY.resolve(a).Some?
      ensures GoodCandidate(codec, a, SAMPLE_INVENTORY.resolve(a).value)
    {
      assert "eip155:" <= a.chain;
    }
  }

  /** On it, under every such codec, the list of the first 65 chains is accepted and then refused; that of the first 64
      seals. */
  lemma SixtyFiveNetworksAreRefused(codec: Codec, accounts: map<Family, string>, n: nat)
    requires (forall s :: IsSampleChain(s) ==> codec.chainCanonical(Evm, s)) && GoodAccounts(codec, accounts)
    requires 1 <= n <= 90
    ensures Resolved(SAMPLE_INVENTORY, NativeRows(SampleChains(n)))
    ensures var o := NetworkList(SAMPLE_INVENTORY, accounts, SampleChains(n));
      && Accepted(codec, SAMPLE_INVENTORY, o)
      && (Seal(codec, CompiledBody(SAMPLE_INVENTORY, o)) == Err(InvalidInput) <==> n >= 65)
  {
    SampleChainsDiffer(n);
    SampleIsSound(codec);
    NetworkListSeals(codec, SAMPLE_INVENTORY, accounts, SampleChains(n));
  }
}
