/** The order in which the owner lists admissions does not matter: same chains, same digest. */
module PolicyOrder {
  import opened Basics
  import opened AssetPolicy
  import opened PolicyCompiler
  import opened PolicyGrouping
  import opened CompiledRegistry
  import opened PolicyMeaning
  import opened Order = CodeUnitOrder

  ghost predicate SameRows(x: seq<OwnerRow>, y: seq<OwnerRow>) { forall a :: a in x <==> a in y }

  lemma PermutedMembers(x: seq<OwnerRow>, y: seq<OwnerRow>)
    requires multiset(x) == multiset(y)
    ensures SameRows(x, y) && |x| == |y|
  {
    assert |multiset(x)| == |x| && |multiset(y)| == |y|;
    forall a ensures a in x <==> a in y { assert (a in x <==> a in multiset(x)) && (a in y <==> a in multiset(y)); }
  }

  // ---------------------------------------------------------------- acceptance

  lemma {:induction false} DistinctCountsOnce(x: seq<OwnerRow>, a: OwnerRow)
    requires Distinct(x)
    ensures multiset(x)[a] <= 1
    decreases |x|
  {
    if x != [] {
      DistinctCountsOnce(x[1..], a);
      assert x == [x[0]] + x[1..];
      assert multiset(x) == multiset([x[0]]) + multiset(x[1..]);
      if x[0] == a { assert a !in x[1..]; }
    }
  }

  lemma TwiceCountsTwice(y: seq<OwnerRow>, i: nat, j: nat)
    requires i < j < |y| && y[i] == y[j]
    ensures multiset(y)[y[i]] >= 2
  {
    assert y == y[..j] + y[j..];
    assert multiset(y) == multiset(y[..j]) + multiset(y[j..]);
    assert y[..j][i] in multiset(y[..j]) && y[j..][0] in multiset(y[j..]);
  }

  lemma NoDuplicatesPermuted(inv: Inventory, x: seq<OwnerRow>, y: seq<OwnerRow>)
    requires multiset(x) == multiset(y) && NoDuplicates(inv, x)
    ensures NoDuplicates(inv, y)
  {
    PermutedMembers(x, y);
    forall i, j | 0 <= i < j < |y| ensures !(RowKey(inv, y[i]) == RowKey(inv, y[j]) && y[i].rail == y[j].rail) {
      if y[i] == y[j] {
        TwiceCountsTwice(y, i, j);
        DistinctCountsOnce(x, y[i]);
      } else {
        assert y[i] in x && y[j] in x;
        var k :| 0 <= k < |x| && x[k] == y[i];
        var l :| 0 <= l < |x| && x[l] == y[j];
        assert k < l || l < k;
      }
    }
  }

  lemma AcceptedRowsPermuted(codec: Codec, inv: Inventory, x: seq<OwnerRow>, y: seq<OwnerRow>)
    requires multiset(x) == multiset(y) && AcceptedRows(codec, inv, x)
    ensures AcceptedRows(codec, inv, y) && Families(inv, x) == Families(inv, y)
  {
    PermutedMembers(x, y);
    NoDuplicatesPermuted(inv, x, y);
    forall i | 0 <= i < |y|
      ensures AcceptedRow(codec, y[i]) && inv.resolve(y[i]).Some? && SwapOnChain(y[i], inv.resolve(y[i]).value.chain)
    {
      assert y[i] in x;
      var k :| 0 <= k < |x| && x[k] == y[i];
      assert AcceptedRow(codec, x[k]);
    }
    FamiliesWithin(inv, x, y);
    FamiliesWithin(inv, y, x);
  }

  lemma FamiliesWithin(inv: Inventory, x: seq<OwnerRow>, y: seq<OwnerRow>)
    requires SameRows(x, y) && Resolved(inv, x) && Resolved(inv, y)
    ensures Families(inv, x) <= Families(inv, y)
  {
    forall f | f in Families(inv, x) ensures f in Families(inv, y) {
      var i :| 0 <= i < |x| && Cand(inv, x[i]).family == f;
      assert x[i] in y;
      var j :| 0 <= j < |y| && y[j] == x[i];
    }
  }

  /** Reordering the admissions changes nothing about acceptance. */
  lemma AcceptedPermuted(codec: Codec, inv: Inventory, o: Overlay, rows: seq<OwnerRow>)
    requires multiset(rows) == multiset(o.rows)
    ensures Accepted(codec, inv, o) <==> Accepted(codec, inv, o.(rows := rows))
  {
    PermutedMembers(o.rows, rows);
    if Accepted(codec, inv, o) { AcceptedRowsPermuted(codec, inv, o.rows, rows); }
    if Accepted(codec, inv, o.(rows := rows)) { AcceptedRowsPermuted(codec, inv, rows, o.rows); }
  }

  // ---------------------------------------------------------------- the compiled chains

  lemma SameLanes(inv: Inventory, x: seq<OwnerRow>, y: seq<OwnerRow>, key: Key, rail: Rail)
    requires SameRows(x, y) && NoDuplicates(inv, x) && NoDuplicates(inv, y)
    ensures At(inv, x, key, rail) == At(inv, y, key, rail)
  {
    AtIsListed(inv, x, key, rail);
    AtIsListed(inv, y, key, rail);
    if At(inv, x, key, rail).Some? { AtIsUnique(inv, y, At(inv, x, key, rail).value, key); }
  }

  lemma SameRow(inv: Inventory, x: seq<OwnerRow>, y: seq<OwnerRow>, c: Candidate)
    requires SameRows(x, y) && NoDuplicates(inv, x) && NoDuplicates(inv, y)
    ensures RowFor(inv, x, c) == RowFor(inv, y, c)
  {
    forall r: Rail { SameLanes(inv, x, y, KeyOf(c), r); }
    assert LanesOf(inv, x, KeyOf(c)) == LanesOf(inv, y, KeyOf(c));
  }

  /** Two compilations of the same rows, whatever their order. */
  ghost predicate Twins(inv: Inventory, x: seq<OwnerRow>, y: seq<OwnerRow>, xs: seq<Chain>, ys: seq<Chain>) {
    && SameRows(x, y) && NoDuplicates(inv, x) && NoDuplicates(inv, y) && Coherent(inv, y)
    && IsCompiled(inv, x, xs) && IsCompiled(inv, y, ys)
  }

  lemma CoherentPermuted(inv: Inventory, x: seq<OwnerRow>, y: seq<OwnerRow>)
    requires SameRows(x, y) && Coherent(inv, x)
    ensures Coherent(inv, y)
  {
    forall i, j | 0 <= i < |y| && 0 <= j < |y| && inv.resolve(y[i]).Some? && inv.resolve(y[j]).Some?
      ensures SameNetwork(inv.resolve(y[i]).value, inv.resolve(y[j]).value)
    {
      assert y[i] in x && y[j] in x;
      SameAsset(inv, x, y[i], y[j]);
    }
  }

  /** The other compilation has a chain of the same name, network and family, holding every row of this one. */
  lemma ChainWithin(inv: Inventory, x: seq<OwnerRow>, y: seq<OwnerRow>, xs: seq<Chain>, ys: seq<Chain>, c: Chain)
    requires Twins(inv, x, y, xs, ys) && c in xs
    ensures var d := FindChain(ys, c.chain);
      && d.Some? && d.value.family == c.family && d.value.name == c.name && d.value.chain == c.chain
      && forall r :: r in c.assets ==> r in d.value.assets
  {
    var n := ChainIsNamed(inv, x, xs, c);
    FoundRow(inv, y, ys, n);
    var d := FindChain(ys, c.chain).value;
    forall r | r in c.assets ensures r in d.assets {
      var b := ListedRow(inv, x, xs, c, r);
      SameRow(inv, x, y, inv.resolve(b).value);
      FoundRow(inv, y, ys, b);
    }
  }

  lemma ChainFound(inv: Inventory, x: seq<OwnerRow>, xs: seq<Chain>, c: Chain)
    requires IsCompiled(inv, x, xs) && c in xs
    ensures FindChain(xs, c.chain) == Some(c) && Ascending(KeyedRows(c.assets))
  {
    AscendingChainsDistinct(xs);
    FindChainUnique(xs, c);
    var i :| 0 <= i < |xs| && xs[i] == c;
    assert CompiledChain(inv, x, xs[i]);
  }

  lemma SameMembersSameRows(a: seq<Row>, b: seq<Row>)
    requires Ascending(KeyedRows(a)) && Ascending(KeyedRows(b)) && forall r :: r in a <==> r in b
    ensures a == b
  {
    RowEntries(a, b);
    RowEntries(b, a);
    AscendingUnique(KeyedRows(a), KeyedRows(b));
    forall i | 0 <= i < |a| ensures a[i] == b[i] { assert KeyedRows(a)[i] == KeyedRows(b)[i]; }
  }

  lemma RowEntries(a: seq<Row>, b: seq<Row>)
    requires forall r :: r in a ==> r in b
    ensures forall e :: e in KeyedRows(a) ==> e in KeyedRows(b)
  {
    forall e | e in KeyedRows(a) ensures e in KeyedRows(b) {
      var i :| 0 <= i < |a| && KeyedRows(a)[i] == e;
      assert a[i] in b;
      var j :| 0 <= j < |b| && b[j] == a[i];
      assert KeyedRows(b)[j] == e;
    }
  }

  lemma ChainEntries(a: seq<Chain>, b: seq<Chain>)
    requires forall c :: c in a ==> c in b
    ensures forall e :: e in KeyedChains(a) ==> e in KeyedChains(b)
  {
    forall e | e in KeyedChains(a) ensures e in KeyedChains(b) {
      var i :| 0 <= i < |a| && KeyedChains(a)[i] == e;
      assert a[i] in b;
      var j :| 0 <= j < |b| && b[j] == a[i];
      assert KeyedChains(b)[j] == e;
    }
  }

  lemma SameChain(inv: Inventory, x: seq<OwnerRow>, y: seq<OwnerRow>, xs: seq<Chain>, ys: seq<Chain>, c: Chain)
    requires Twins(inv, x, y, xs, ys) && Twins(inv, y, x, ys, xs) && c in xs
    ensures c in ys
  {
    ChainWithin(inv, x, y, xs, ys, c);
    var d := FindChain(ys, c.chain).value;
    ChainWithin(inv, y, x, ys, xs, d);
    ChainFound(inv, x, xs, c);
    ChainFound(inv, y, ys, d);
    SameMembersSameRows(c.assets, d.assets);
  }

  lemma SameChains(inv: Inventory, x: seq<OwnerRow>, y: seq<OwnerRow>, xs: seq<Chain>, ys: seq<Chain>)
    requires Twins(inv, x, y, xs, ys) && Twins(inv, y, x, ys, xs)
    ensures xs == ys
  {
    forall c | c in xs ensures c in ys { SameChain(inv, x, y, xs, ys, c); }
    forall c | c in ys ensures c in xs { SameChain(inv, y, x, ys, xs, c); }
    ChainEntries(xs, ys);
    ChainEntries(ys, xs);
    AscendingUnique(KeyedChains(xs), KeyedChains(ys));
    forall i | 0 <= i < |xs| ensures xs[i] == ys[i] { assert KeyedChains(xs)[i] == KeyedChains(ys)[i]; }
  }

  lemma GoodInventoryPermuted(codec: Codec, inv: Inventory, x: seq<OwnerRow>, y: seq<OwnerRow>)
    requires SameRows(x, y) && GoodInventory(codec, inv, x)
    ensures GoodInventory(codec, inv, y)
  {
    forall i | 0 <= i < |y| && inv.resolve(y[i]).Some? ensures GoodCandidate(codec, y[i], inv.resolve(y[i]).value) {
      assert y[i] in x;
      var j :| 0 <= j < |x| && x[j] == y[i];
    }
  }

  /** Any reordering of an accepted overlay's admissions compiles to the same body, so it has the same digest. */
  lemma CompileIgnoresOrder(codec: Codec, inv: Inventory, o: Overlay, rows: seq<OwnerRow>)
    requires Accepted(codec, inv, o) && GoodInventory(codec, inv, o.rows) && Coherent(inv, o.rows)
    requires multiset(rows) == multiset(o.rows)
    ensures Accepted(codec, inv, o.(rows := rows))
    ensures CompiledBody(inv, o.(rows := rows)) == CompiledBody(inv, o)
  {
    AcceptedPermuted(codec, inv, o, rows);
    PermutedMembers(rows, o.rows);
    GoodInventoryPermuted(codec, inv, o.rows, rows);
    CoherentPermuted(inv, o.rows, rows);
    CompiledChainsAreCompiled(codec, inv, o.rows);
    CompiledChainsAreCompiled(codec, inv, rows);
    SameChains(inv, rows, o.rows, CompiledChains(inv, rows), CompiledChains(inv, o.rows));
  }
}
