/** The compiler's second half: merged rows grouped into chains and put in code-unit order, and what the result
    holds. */
module PolicyGrouping {
  import opened Basics
  import opened AssetPolicy
  import opened PolicyCompiler
  import opened Order = CodeUnitOrder

  // ---------------------------------------------------------------- grouping

  function ChainPosition(chains: seq<Chain>, name: string): (k: nat)
    ensures k <= |chains| && (k < |chains| ==> chains[k].chain == name)
    ensures forall j :: 0 <= j < k ==> chains[j].chain != name
  {
    if chains == [] then 0
    else if chains[0].chain == name then 0
    else
      var rest := ChainPosition(chains[1..], name);
      assert forall j :: 0 < j < rest + 1 ==> chains[j] == chains[1..][j - 1];
      rest + 1
  }

  function GroupNext(chains: seq<Chain>, m: Merged): seq<Chain> {
    var k := ChainPosition(chains, m.asset.chain);
    if k < |chains| then chains[k := chains[k].(assets := chains[k].assets + [m.row])]
    else chains + [Chain(m.asset.chain, m.asset.family, m.asset.networkName, [m.row])]
  }

  function GroupAll(merged: seq<Merged>): seq<Chain> {
    if merged == [] then [] else GroupNext(GroupAll(merged[..|merged| - 1]), merged[|merged| - 1])
  }

  /** The compiler's second loop, over a map that keeps insertion order. */
  method GroupRows(merged: seq<Merged>) returns (chains: seq<Chain>)
    ensures chains == GroupAll(merged)
  {
    chains := [];
    for i := 0 to |merged|
      invariant chains == GroupAll(merged[..i])
    {
      var m := merged[i];
      var k := ChainPosition(chains, m.asset.chain);
      if k == |chains| {
        chains := chains + [Chain(m.asset.chain, m.asset.family, m.asset.networkName, [m.row])];
      } else {
        chains := chains[k := chains[k].(assets := chains[k].assets + [m.row])];
      }
      assert merged[..i + 1][..i] == merged[..i];
    }
    assert merged[..|merged|] == merged;
  }

  // ---------------------------------------------------------------- sorting

  function Codes(s: string): Text { seq(|s|, i requires 0 <= i < |s| => s[i] as int) }

  function RowText(r: Row): Text {
    Codes((if r.kind.Native? then "native:" else "token:") + (if r.identifier.Some? then r.identifier.value else ""))
  }

  function KeyedRows(rows: seq<Row>): (k: seq<Keyed<Row>>)
    ensures |k| == |rows| && forall i :: 0 <= i < |rows| ==> k[i] == Keyed(RowText(rows[i]), rows[i])
  {
    seq(|rows|, i requires 0 <= i < |rows| => Keyed(RowText(rows[i]), rows[i]))
  }

  function KeyedChains(chains: seq<Chain>): (k: seq<Keyed<Chain>>)
    ensures |k| == |chains| && forall i :: 0 <= i < |chains| ==> k[i] == Keyed(Codes(chains[i].chain), chains[i])
  {
    seq(|chains|, i requires 0 <= i < |chains| => Keyed(Codes(chains[i].chain), chains[i]))
  }

  function Values<T>(k: seq<Keyed<T>>): (v: seq<T>)
    ensures |v| == |k| && forall i :: 0 <= i < |k| ==> v[i] == k[i].value
  {
    seq(|k|, i requires 0 <= i < |k| => k[i].value)
  }

  function SortRows(rows: seq<Row>): seq<Row> { Values(Sort(KeyedRows(rows))) }

  function SortAssets(c: Chain): Chain { c.(assets := SortRows(c.assets)) }

  function SortAll(chains: seq<Chain>): (s: seq<Chain>)
    ensures |s| == |chains| && forall i :: 0 <= i < |chains| ==> s[i] == SortAssets(chains[i])
  {
    seq(|chains|, i requires 0 <= i < |chains| => SortAssets(chains[i]))
  }

  function SortChains(chains: seq<Chain>): seq<Chain> { Values(Sort(KeyedChains(SortAll(chains)))) }

  function CompiledChains(inv: Inventory, rows: seq<OwnerRow>): seq<Chain>
    requires forall i :: 0 <= i < |rows| ==> inv.resolve(rows[i]).Some?
  {
    SortChains(GroupAll(MergedAll(inv, rows)))
  }

  function CompiledBody(inv: Inventory, o: Overlay): RegistryBody
    requires forall i :: 0 <= i < |o.rows| ==> inv.resolve(o.rows[i]).Some?
  {
    RegistryBody(V2, o.version, o.effectiveAt, Day(o.effectiveAt), Some(o.effectiveAt), o.expiresAt,
                 CompiledChains(inv, o.rows))
  }

  /** `compileAllowlistPolicyOverlayV2`: check, merge, group, sort, seal. */
  method Compile(codec: Codec, inv: Inventory, o: Overlay) returns (r: Result<Registry>)
    ensures !Accepted(codec, inv, o) ==> r == Err(InvalidInput)
    ensures Accepted(codec, inv, o) ==> r == Seal(codec, CompiledBody(inv, o))
  {
    var ok := OverlayInput(codec, inv, o);
    if !ok { return Err(InvalidInput); }
    var merged := MergeRows(inv, o.rows);
    var chains := GroupRows(merged);
    r := Seal(codec,
              RegistryBody(V2, o.version, o.effectiveAt, Day(o.effectiveAt), Some(o.effectiveAt), o.expiresAt,
                           SortChains(chains)));
  }

  // ---------------------------------------------------------------- what grouping keeps

  /** A row came from a merged row of this chain. */
  ghost predicate FromMerged(merged: seq<Merged>, chain: string, r: Row) {
    exists m :: m in merged && m.asset.chain == chain && m.row == r
  }

  ghost predicate NamedByMerged(merged: seq<Merged>, c: Chain) {
    exists m :: m in merged && m.asset.chain == c.chain && m.asset.family == c.family && m.asset.networkName == c.name
  }

  ghost predicate InItsChain(chains: seq<Chain>, m: Merged) {
    var k := ChainPosition(chains, m.asset.chain);
    k < |chains| && m.row in chains[k].assets
  }

  ghost predicate DistinctRows(rows: seq<Row>) {
    forall i, j :: 0 <= i < j < |rows| ==> !(rows[i].kind == rows[j].kind && rows[i].identifier == rows[j].identifier)
  }

  ghost predicate DistinctChains(chains: seq<Chain>) {
    forall i, j :: 0 <= i < j < |chains| ==> chains[i].chain != chains[j].chain
  }

  ghost predicate GoodChain(merged: seq<Merged>, c: Chain) {
    && c.assets != [] && NamedByMerged(merged, c) && DistinctRows(c.assets)
    && forall i :: 0 <= i < |c.assets| ==> FromMerged(merged, c.chain, c.assets[i])
  }

  ghost predicate IsGrouped(merged: seq<Merged>, chains: seq<Chain>) {
    && DistinctChains(chains)
    && (forall i :: 0 <= i < |chains| ==> GoodChain(merged, chains[i]))
    && (forall i :: 0 <= i < |merged| ==> InItsChain(chains, merged[i]))
  }

  /** A merged row is filed under its own asset's identity. */
  ghost predicate WellKeyed(merged: seq<Merged>) {
    && OncePerAsset(merged)
    && forall i ::
         0 <= i < |merged| ==>
           merged[i].row.kind == merged[i].asset.kind && merged[i].row.identifier == merged[i].asset.identifier
  }

  lemma {:induction false} GroupAllIsGrouped(merged: seq<Merged>)
    requires WellKeyed(merged)
    ensures IsGrouped(merged, GroupAll(merged))
    decreases |merged|
  {
    if merged != [] {
      var before, m := merged[..|merged| - 1], merged[|merged| - 1];
      assert merged == before + [m];
      GroupAllIsGrouped(before);
      GroupStep(before, m, GroupAll(before));
    }
  }

  lemma GroupStep(before: seq<Merged>, m: Merged, chains: seq<Chain>)
    requires WellKeyed(before + [m]) && IsGrouped(before, chains)
    ensures IsGrouped(before + [m], GroupNext(chains, m))
  {
    var next := GroupNext(chains, m);
    NextDistinctChains(chains, m);
    forall i | 0 <= i < |next| ensures GoodChain(before + [m], next[i]) { NextGoodChain(before, m, chains, i); }
    forall i | 0 <= i < |before + [m]| ensures InItsChain(next, (before + [m])[i]) {
      if i < |before| { NextInChain(chains, before[i], m); } else { ChainPositionKept(chains, next, m.asset.chain); }
    }
  }

  lemma NextDistinctChains(chains: seq<Chain>, m: Merged)
    requires DistinctChains(chains)
    ensures DistinctChains(GroupNext(chains, m))
  {
  }

  lemma NextGoodChain(before: seq<Merged>, m: Merged, chains: seq<Chain>, i: nat)
    requires WellKeyed(before + [m]) && i < |GroupNext(chains, m)| && (i < |chains| ==> GoodChain(before, chains[i]))
    ensures GoodChain(before + [m], GroupNext(chains, m)[i])
  {
    if i == |chains| {
      assert m in before + [m];
    } else {
      GoodChainMore(before, m, chains[i]);
      if i == ChainPosition(chains, m.asset.chain) { GoodChainGrows(before, m, chains[i]); }
    }
  }

  lemma NextInChain(chains: seq<Chain>, o: Merged, m: Merged)
    requires InItsChain(chains, o)
    ensures InItsChain(GroupNext(chains, m), o)
  {
    ChainPositionKept(chains, GroupNext(chains, m), o.asset.chain);
  }

  lemma ChainPositionKept(chains: seq<Chain>, next: seq<Chain>, name: string)
    requires |chains| <= |next| && forall j :: 0 <= j < |chains| ==> next[j].chain == chains[j].chain
    ensures ChainPosition(chains, name) < |chains| ==> ChainPosition(next, name) == ChainPosition(chains, name)
    ensures ChainPosition(chains, name) == |chains| < |next| && next[|chains|].chain == name ==>
      ChainPosition(next, name) == |chains|
  {
  }

  lemma GoodChainMore(before: seq<Merged>, m: Merged, c: Chain)
    requires GoodChain(before, c)
    ensures GoodChain(before + [m], c)
  {
    var n :| n in before && n.asset.chain == c.chain && n.asset.family == c.family && n.asset.networkName == c.name;
    assert n in before + [m];
    forall i | 0 <= i < |c.assets| ensures FromMerged(before + [m], c.chain, c.assets[i]) {
      var o :| o in before && o.asset.chain == c.chain && o.row == c.assets[i];
      assert o in before + [m];
    }
  }

  lemma GoodChainGrows(before: seq<Merged>, m: Merged, c: Chain)
    requires WellKeyed(before + [m]) && GoodChain(before, c) && m.asset.chain == c.chain
    ensures GoodChain(before + [m], c.(assets := c.assets + [m.row]))
  {
    GoodChainMore(before, m, c);
    assert m in before + [m];
    forall i | 0 <= i < |c.assets|
      ensures !(c.assets[i].kind == m.row.kind && c.assets[i].identifier == m.row.identifier)
    {
      assert FromMerged(before, c.chain, c.assets[i]);
      var o :| o in before && o.asset.chain == c.chain && o.row == c.assets[i];
      var j :| 0 <= j < |before| && before[j] == o;
      assert (before + [m])[j] == o && (before + [m])[|before|] == m;
    }
    var rows := c.assets + [m.row];
    forall i | 0 <= i < |rows| ensures FromMerged(before + [m], c.chain, rows[i]) {
      if i < |c.assets| { assert rows[i] == c.assets[i]; }
    }
  }
}
