/** What the compiled chains hold: exactly the rows the owner wrote, asset by asset, in code-unit order. */
module CompiledRegistry {
  import opened Basics
  import opened AssetPolicy
  import opened PolicyCompiler
  import opened PolicyGrouping
  import opened Order = CodeUnitOrder

  // ---------------------------------------------------------------- assumptions on the inventory

  predicate GoodCandidate(codec: Codec, a: OwnerRow, c: Candidate) {
    && c.chain == a.chain && (c.kind.Native? <==> c.identifier.None?)
    && PolicyFamily(c.chain) == Some(c.family) && codec.chainCanonical(c.family, c.chain)
    && IsNetworkName(c.networkName) && IsSymbol(c.symbol) && 0 <= c.decimals <= 255
    && (c.kind.Token? ==> codec.token(c.family, c.identifier.value) == c.identifier)
  }

  ghost predicate GoodInventory(codec: Codec, inv: Inventory, rows: seq<OwnerRow>) {
    forall i :: 0 <= i < |rows| && inv.resolve(rows[i]).Some? ==>
      GoodCandidate(codec, rows[i], inv.resolve(rows[i]).value)
  }

  /** One family and name per network, one symbol and decimals per asset. */
  ghost predicate Coherent(inv: Inventory, rows: seq<OwnerRow>) {
    forall i, j :: 0 <= i < |rows| && 0 <= j < |rows| && inv.resolve(rows[i]).Some? && inv.resolve(rows[j]).Some? ==>
      SameNetwork(inv.resolve(rows[i]).value, inv.resolve(rows[j]).value)
  }

  predicate SameNetwork(c: Candidate, d: Candidate) {
    && (c.chain == d.chain ==> c.family == d.family && c.networkName == d.networkName)
    && (KeyOf(c) == KeyOf(d) ==> c == d)
  }

  // ---------------------------------------------------------------- sorting keeps what was grouped

  lemma CodesInjective(s: string, t: string)
    requires Codes(s) == Codes(t)
    ensures s == t
  {
    assert |s| == |Codes(s)| == |t|;
    forall i | 0 <= i < |s| ensures s[i] == t[i] { assert Codes(s)[i] == Codes(t)[i]; }
  }

  predicate WellIdentified(r: Row) { r.kind.Native? <==> r.identifier.None? }

  lemma RowTextInjective(r: Row, s: Row)
    requires WellIdentified(r) && WellIdentified(s) && RowText(r) == RowText(s)
    ensures r.kind == s.kind && r.identifier == s.identifier
  {
    var a := (if r.kind.Native? then "native:" else "token:") + (if r.identifier.Some? then r.identifier.value else "");
    var b := (if s.kind.Native? then "native:" else "token:") + (if s.identifier.Some? then s.identifier.value else "");
    CodesInjective(a, b);
    assert a[0] == b[0];
    if r.kind.Token? { assert a[6..] == r.identifier.value && b[6..] == s.identifier.value; }
  }

  lemma SortedRows(rows: seq<Row>)
    requires DistinctRows(rows) && forall i :: 0 <= i < |rows| ==> WellIdentified(rows[i])
    ensures Ascending(KeyedRows(SortRows(rows))) && |SortRows(rows)| == |rows|
    ensures forall r :: r in SortRows(rows) <==> r in rows
  {
    var keyed := KeyedRows(rows);
    forall i, j | 0 <= i < j < |keyed| ensures keyed[i].key != keyed[j].key {
      if keyed[i].key == keyed[j].key { RowTextInjective(rows[i], rows[j]); }
    }
    SortAscends(keyed);
    SortPermutes(keyed);
    forall k: Keyed<Row> ensures k in Sort(keyed) <==> k in keyed { SortMembers(keyed, k); }
    forall i | 0 <= i < |Sort(keyed)| ensures Sort(keyed)[i] == KeyedRows(SortRows(rows))[i] {
      assert Sort(keyed)[i] in keyed;
    }
    assert KeyedRows(SortRows(rows)) == Sort(keyed);
    forall r ensures r in SortRows(rows) <==> r in rows {
      if r in rows {
        var i :| 0 <= i < |rows| && rows[i] == r;
        assert keyed[i] in Sort(keyed);
      }
      if r in SortRows(rows) {
        var i :| 0 <= i < |rows| && SortRows(rows)[i] == r;
        assert Sort(keyed)[i] in keyed;
      }
    }
  }

  lemma SortedChains(chains: seq<Chain>)
    requires DistinctChains(chains)
    ensures Ascending(KeyedChains(SortChains(chains))) && |SortChains(chains)| == |chains|
    ensures forall c :: c in SortChains(chains) <==> c in SortAll(chains)
  {
    var all := SortAll(chains);
    var keyed := KeyedChains(all);
    forall i, j | 0 <= i < j < |keyed| ensures keyed[i].key != keyed[j].key {
      if keyed[i].key == keyed[j].key { CodesInjective(all[i].chain, all[j].chain); }
    }
    SortAscends(keyed);
    SortPermutes(keyed);
    forall k: Keyed<Chain> ensures k in Sort(keyed) <==> k in keyed { SortMembers(keyed, k); }
    forall i | 0 <= i < |Sort(keyed)| ensures Sort(keyed)[i] == KeyedChains(SortChains(chains))[i] {
      assert Sort(keyed)[i] in keyed;
    }
    assert KeyedChains(SortChains(chains)) == Sort(keyed);
    forall c ensures c in SortChains(chains) <==> c in all {
      if c in all {
        var i :| 0 <= i < |all| && all[i] == c;
        assert keyed[i] in Sort(keyed);
      }
      if c in SortChains(chains) {
        var i :| 0 <= i < |chains| && SortChains(chains)[i] == c;
        assert Sort(keyed)[i] in keyed;
      }
    }
  }

  // ---------------------------------------------------------------- what the compiled chains hold

  /** A compiled row is exactly what the owner's rows say about one of their assets. */
  ghost predicate Listed(inv: Inventory, rows: seq<OwnerRow>, chain: string, r: Row) {
    exists a :: a in rows && inv.resolve(a).Some? && inv.resolve(a).value.chain == chain
      && r == RowFor(inv, rows, inv.resolve(a).value)
  }

  ghost predicate ChainNamed(inv: Inventory, rows: seq<OwnerRow>, chain: string, family: Family, name: string) {
    exists a :: a in rows && inv.resolve(a).Some? && inv.resolve(a).value.chain == chain
      && inv.resolve(a).value.family == family && inv.resolve(a).value.networkName == name
  }

  ghost predicate CompiledChain(inv: Inventory, rows: seq<OwnerRow>, c: Chain) {
    && c.assets != [] && ChainNamed(inv, rows, c.chain, c.family, c.name) && Ascending(KeyedRows(c.assets))
    && forall j :: 0 <= j < |c.assets| ==> Listed(inv, rows, c.chain, c.assets[j])
  }

  /** The registry has a row for this asset. */
  predicate Covered(chains: seq<Chain>, key: Key) {
    var c := FindChain(chains, key.chain);
    c.Some? && FindRow(c.value.assets, key.kind, key.identifier).Some?
  }

  ghost predicate IsCompiled(inv: Inventory, rows: seq<OwnerRow>, chains: seq<Chain>) {
    && Ascending(KeyedChains(chains))
    && (forall i :: 0 <= i < |chains| ==> CompiledChain(inv, rows, chains[i]))
    && (forall i ::
         0 <= i < |rows| && inv.resolve(rows[i]).Some? ==> Covered(chains, KeyOf(inv.resolve(rows[i]).value)))
  }

  lemma MergedAreListed(inv: Inventory, rows: seq<OwnerRow>, merged: seq<Merged>, chain: string, r: Row)
    requires IsMerged(inv, rows, merged) && FromMerged(merged, chain, r)
    ensures Listed(inv, rows, chain, r)
  {
    var m :| m in merged && m.asset.chain == chain && m.row == r;
    var i :| 0 <= i < |merged| && merged[i] == m;
    assert SaysAll(inv, rows, merged[i]);
    var a :| a in rows && inv.resolve(a) == Some(m.asset);
  }

  lemma MergedNamesChain(inv: Inventory, rows: seq<OwnerRow>, merged: seq<Merged>, c: Chain)
    requires IsMerged(inv, rows, merged) && NamedByMerged(merged, c)
    ensures ChainNamed(inv, rows, c.chain, c.family, c.name)
  {
    var m :| m in merged && m.asset.chain == c.chain && m.asset.family == c.family && m.asset.networkName == c.name;
    var i :| 0 <= i < |merged| && merged[i] == m;
    assert SaysAll(inv, rows, merged[i]);
    var a :| a in rows && inv.resolve(a) == Some(m.asset);
  }

  lemma ListedIsIdentified(codec: Codec, inv: Inventory, rows: seq<OwnerRow>, chain: string, r: Row)
    requires GoodInventory(codec, inv, rows) && Listed(inv, rows, chain, r)
    ensures WellIdentified(r)
  {
    var a :| a in rows && inv.resolve(a).Some? && inv.resolve(a).value.chain == chain
      && r == RowFor(inv, rows, inv.resolve(a).value);
    var i :| 0 <= i < |rows| && rows[i] == a;
    assert GoodCandidate(codec, rows[i], inv.resolve(rows[i]).value);
  }

  lemma SortedChainIsCompiled(codec: Codec, inv: Inventory, rows: seq<OwnerRow>, merged: seq<Merged>, c: Chain)
    requires GoodInventory(codec, inv, rows) && IsMerged(inv, rows, merged) && GoodChain(merged, c)
    ensures CompiledChain(inv, rows, SortAssets(c))
    ensures forall r :: r in SortAssets(c).assets <==> r in c.assets
  {
    MergedNamesChain(inv, rows, merged, c);
    forall r | r in c.assets ensures Listed(inv, rows, c.chain, r) && WellIdentified(r) {
      var i :| 0 <= i < |c.assets| && c.assets[i] == r;
      MergedAreListed(inv, rows, merged, c.chain, c.assets[i]);
      ListedIsIdentified(codec, inv, rows, c.chain, r);
    }
    SortedChain(inv, rows, c);
  }

  lemma SortedChain(inv: Inventory, rows: seq<OwnerRow>, c: Chain)
    requires c.assets != [] && DistinctRows(c.assets) && ChainNamed(inv, rows, c.chain, c.family, c.name)
    requires forall r :: r in c.assets ==> Listed(inv, rows, c.chain, r) && WellIdentified(r)
    ensures CompiledChain(inv, rows, SortAssets(c))
    ensures forall r :: r in SortAssets(c).assets <==> r in c.assets
  {
    SortedRows(c.assets);
    assert |SortAssets(c).assets| == |c.assets|;
  }

  lemma AscendingChainsDistinct(chains: seq<Chain>)
    requires Ascending(KeyedChains(chains))
    ensures DistinctChains(chains)
  {
    AscendingDistinct(KeyedChains(chains));
    forall i, j | 0 <= i < j < |chains| ensures chains[i].chain != chains[j].chain {
      assert KeyedChains(chains)[i].key != KeyedChains(chains)[j].key;
    }
  }

  lemma FindChainUnique(chains: seq<Chain>, c: Chain)
    requires DistinctChains(chains) && c in chains
    ensures FindChain(chains, c.chain) == Some(c)
  {
    var found := FindChain(chains, c.chain);
    var i :| 0 <= i < |chains| && chains[i] == c;
    var j :| 0 <= j < |chains| && chains[j] == found.value;
  }

  lemma MergedIsWellKeyed(inv: Inventory, rows: seq<OwnerRow>, merged: seq<Merged>)
    requires IsMerged(inv, rows, merged)
    ensures WellKeyed(merged)
  {
    forall i | 0 <= i < |merged|
      ensures merged[i].row.kind == merged[i].asset.kind && merged[i].row.identifier == merged[i].asset.identifier
    {
      assert SaysAll(inv, rows, merged[i]);
    }
  }

  /** The compiler's output is exactly the owner's rows, asset by asset, in order. */
  lemma CompiledChainsAreCompiled(codec: Codec, inv: Inventory, rows: seq<OwnerRow>)
    requires AcceptedRows(codec, inv, rows) && GoodInventory(codec, inv, rows)
    ensures IsCompiled(inv, rows, CompiledChains(inv, rows))
  {
    var merged := MergedAll(inv, rows);
    MergedAllIsMerged(codec, inv, rows);
    MergedIsWellKeyed(inv, rows, merged);
    GroupAllIsGrouped(merged);
    SortedChains(GroupAll(merged));
    SortedIsCompiled(codec, inv, rows, merged, GroupAll(merged), CompiledChains(inv, rows));
  }

  lemma SortedIsCompiled(codec: Codec, inv: Inventory, rows: seq<OwnerRow>, merged: seq<Merged>, grouped: seq<Chain>,
                         chains: seq<Chain>)
    requires GoodInventory(codec, inv, rows) && IsMerged(inv, rows, merged) && WellKeyed(merged)
      && IsGrouped(merged, grouped)
    requires Ascending(KeyedChains(chains)) && (forall c :: c in chains <==> c in SortAll(grouped))
    ensures IsCompiled(inv, rows, chains)
  {
    forall i | 0 <= i < |chains| ensures CompiledChain(inv, rows, chains[i]) {
      SortedChainCompiled(codec, inv, rows, merged, grouped, chains[i]);
    }
    forall i | 0 <= i < |rows| && inv.resolve(rows[i]).Some?
      ensures Covered(chains, KeyOf(inv.resolve(rows[i]).value))
    {
      RowIsCovered(codec, inv, rows, merged, grouped, chains, i);
    }
  }

  lemma SortedChainCompiled(codec: Codec, inv: Inventory, rows: seq<OwnerRow>, merged: seq<Merged>, grouped: seq<Chain>,
                            c: Chain)
    requires GoodInventory(codec, inv, rows) && IsMerged(inv, rows, merged) && IsGrouped(merged, grouped)
      && c in SortAll(grouped)
    ensures CompiledChain(inv, rows, c)
  {
    var k :| 0 <= k < |grouped| && SortAll(grouped)[k] == c;
    SortedChainIsCompiled(codec, inv, rows, merged, grouped[k]);
  }

  lemma RowIsCovered(codec: Codec, inv: Inventory, rows: seq<OwnerRow>, merged: seq<Merged>, grouped: seq<Chain>,
                     chains: seq<Chain>, i: nat)
    requires GoodInventory(codec, inv, rows) && IsMerged(inv, rows, merged) && WellKeyed(merged)
      && IsGrouped(merged, grouped)
    requires Ascending(KeyedChains(chains)) && (forall c :: c in chains <==> c in SortAll(grouped))
    requires i < |rows| && inv.resolve(rows[i]).Some?
    ensures Covered(chains, KeyOf(inv.resolve(rows[i]).value))
  {
    var key := KeyOf(inv.resolve(rows[i]).value);
    assert Placed(inv, merged, rows[i]);
    var m := merged[Position(merged, key)];
    assert InItsChain(grouped, m);
    var k := ChainPosition(grouped, m.asset.chain);
    var sorted := SortAssets(grouped[k]);
    assert SortAll(grouped)[k] == sorted;
    assert GoodChain(merged, grouped[k]);
    SortedChainIsCompiled(codec, inv, rows, merged, grouped[k]);
    AscendingChainsDistinct(chains);
    assert sorted in chains;
    FindChainUnique(chains, sorted);
    var x :| 0 <= x < |sorted.assets| && sorted.assets[x] == m.row;
  }
}
