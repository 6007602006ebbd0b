/** Canonical JSON values, on which every digest in the repository rests. Text is a sequence of UTF-16 code units. */
module CanonicalJson {
  import opened Basics
  import opened CodeUnitOrder

  const MAX_SAFE_INTEGER: int := 9_007_199_254_740_991

  /** A JavaScript value: an object's own members in the order they were created, `Undefined` where a member is
      undefined. */
  datatype Value =
    | Undefined
    | Null
    | Boolean(b: bool)
    | Number(n: int)
    | String(s: Text)
    | List(items: seq<Value>)
    | Object(members: seq<Keyed<Value>>)

  type Members = seq<Keyed<Value>>

  // ---------------------------------------------------------------- toCanonical

  /** An object's members in creation order: undefined ones dropped, the others canonical. */
  function CanonicalMembers(ms: Members): Result<Members>
    decreases ms, 0
  {
    if ms == [] then Ok([])
    else if ms[0].value.Undefined? then CanonicalMembers(ms[1..])
    else
      var first :- Canonical(ms[0].value);
      var rest :- CanonicalMembers(ms[1..]);
      Ok([Keyed(ms[0].key, first)] + rest)
  }

  function CanonicalItems(items: seq<Value>): Result<seq<Value>>
    decreases items, 0
  {
    if items == [] then Ok([])
    else
      var first :- Canonical(items[0]);
      var rest :- CanonicalItems(items[1..]);
      Ok([first] + rest)
  }

  function Canonical(v: Value): Result<Value>
    decreases v, 1
  {
    match v
    case Undefined => Err(InvalidInput)
    case Null | Boolean(_) | String(_) => Ok(v)
    case Number(n) => if -MAX_SAFE_INTEGER <= n <= MAX_SAFE_INTEGER then Ok(v) else Err(InvalidInput)
    case List(items) =>
      var out :- CanonicalItems(items);
      Ok(List(out))
    case Object(members) =>
      var out :- CanonicalMembers(members);
      Ok(Object(Sort(out)))
  }

  // ---------------------------------------------------------------- what canonical values are

  /** Every unit of a text is a UTF-16 code unit. */
  predicate IsText(s: Text) { forall i :: 0 <= i < |s| ==> 0 <= s[i] < 0x10000 }

  /** A JavaScript object never has two own members of one name. */
  ghost predicate WellFormed(v: Value) {
    match v
    case String(s) => IsText(s)
    case List(items) => forall x | x in items :: WellFormed(x)
    case Object(ms) => DistinctKeys(ms) && forall m | m in ms :: IsText(m.key) && WellFormed(m.value)
    case _ => true
  }

  /** No undefined member, only safe integers, every object's members in ascending code-unit order. */
  ghost predicate IsCanonical(v: Value) {
    match v
    case Undefined => false
    case Null | Boolean(_) => true
    case String(s) => IsText(s)
    case Number(n) => -MAX_SAFE_INTEGER <= n <= MAX_SAFE_INTEGER
    case List(items) => forall x | x in items :: IsCanonical(x)
    case Object(ms) => Ascending(ms) && forall m | m in ms :: IsText(m.key) && IsCanonical(m.value)
  }

  /** The same value once undefined members are dropped and member order is ignored. */
  ghost predicate Equivalent(a: Value, b: Value)
    decreases a, 1
  {
    match a
    case List(items) =>
      b.List? && |items| == |b.items| && forall i | 0 <= i < |items| :: Equivalent(items[i], b.items[i])
    case Object(ms) =>
      && b.Object?
      && (forall m | m in ms && !m.value.Undefined? :: MatchedIn(m, b.members))
      && (forall n | n in b.members && !n.value.Undefined? :: NamedIn(n, ms))
    case _ => a == b
  }

  ghost predicate MatchedIn(m: Keyed<Value>, ns: Members)
    decreases m, 0
  {
    exists n :: n in ns && n.key == m.key && Equivalent(m.value, n.value)
  }

  ghost predicate NamedIn(n: Keyed<Value>, ms: Members) {
    exists m :: m in ms && m.key == n.key && !m.value.Undefined?
  }

  // ---------------------------------------------------------------- canonical members

  /** The canonical members are exactly the canonical forms of the defined members. */
  lemma {:induction false} CanonicalMembersAre(ms: Members, e: Keyed<Value>)
    requires CanonicalMembers(ms).Ok?
    ensures e in CanonicalMembers(ms).value <==>
      exists m :: m in ms && !m.value.Undefined? && m.key == e.key && Canonical(m.value) == Ok(e.value)
    decreases |ms|
  {
    if ms != [] {
      assert ms == [ms[0]] + ms[1..];
      CanonicalMembersAre(ms[1..], e);
      if ms[0].value.Undefined? {
        assert forall m :: m in ms && !m.value.Undefined? ==> m in ms[1..];
      } else {
        var first := Keyed(ms[0].key, Canonical(ms[0].value).value);
        assert CanonicalMembers(ms).value == [first] + CanonicalMembers(ms[1..]).value;
        if e == first { assert ms[0] in ms; }
      }
    }
  }

  lemma {:induction false} CanonicalMembersOk(ms: Members, m: Keyed<Value>)
    requires CanonicalMembers(ms).Ok? && m in ms && !m.value.Undefined?
    ensures Canonical(m.value).Ok?
    decreases |ms|
  {
    if m != ms[0] {
      assert m in ms[1..];
      CanonicalMembersOk(ms[1..], m);
    }
  }

  lemma {:induction false} CanonicalMembersDistinct(ms: Members)
    requires DistinctKeys(ms) && CanonicalMembers(ms).Ok?
    ensures DistinctKeys(CanonicalMembers(ms).value)
    decreases |ms|
  {
    if ms != [] {
      CanonicalMembersDistinct(ms[1..]);
      if !ms[0].value.Undefined? {
        var rest := CanonicalMembers(ms[1..]).value;
        forall i | 0 <= i < |rest| ensures rest[i].key != ms[0].key {
          CanonicalMembersAre(ms[1..], rest[i]);
        }
      }
    }
  }

  lemma {:induction false} CanonicalItemsAre(items: seq<Value>)
    requires CanonicalItems(items).Ok?
    ensures var out := CanonicalItems(items).value;
      |out| == |items| && forall i :: 0 <= i < |items| ==> Canonical(items[i]) == Ok(out[i])
    decreases |items|
  {
    if items != [] { CanonicalItemsAre(items[1..]); }
  }

  // ---------------------------------------------------------------- canonical forms are canonical, and fixed

  lemma {:induction false} CanonicalIsCanonical(v: Value)
    requires WellFormed(v) && Canonical(v).Ok?
    ensures IsCanonical(Canonical(v).value)
    decreases v
  {
    match v
    case List(items) =>
      CanonicalItemsAre(items);
      forall i | 0 <= i < |items| ensures IsCanonical(CanonicalItems(items).value[i]) {
        CanonicalIsCanonical(items[i]);
      }
    case Object(ms) =>
      var out := CanonicalMembers(ms).value;
      CanonicalMembersDistinct(ms);
      SortAscends(out);
      forall e | e in Sort(out) ensures IsText(e.key) && IsCanonical(e.value) {
        SortMembers(out, e);
        CanonicalMembersAre(ms, e);
        var m :| m in ms && !m.value.Undefined? && m.key == e.key && Canonical(m.value) == Ok(e.value);
        CanonicalIsCanonical(m.value);
      }
    case _ =>
  }

  lemma SortOfAscending(ms: Members)
    requires Ascending(ms)
    ensures Sort(ms) == ms
  {
    AscendingDistinct(ms);
    SortAscends(ms);
    forall e ensures e in Sort(ms) <==> e in ms { SortMembers(ms, e); }
    AscendingUnique(Sort(ms), ms);
  }

  lemma {:induction false} CanonicalMembersFixed(ms: Members)
    requires forall m | m in ms :: IsCanonical(m.value)
    ensures CanonicalMembers(ms) == Ok(ms)
    decreases ms, 0
  {
    if ms != [] {
      CanonicalFixed(ms[0].value);
      CanonicalMembersFixed(ms[1..]);
      assert ms == [Keyed(ms[0].key, ms[0].value)] + ms[1..];
    }
  }

  lemma {:induction false} CanonicalItemsFixed(items: seq<Value>)
    requires forall x | x in items :: IsCanonical(x)
    ensures CanonicalItems(items) == Ok(items)
    decreases items, 0
  {
    if items != [] {
      CanonicalFixed(items[0]);
      CanonicalItemsFixed(items[1..]);
      assert items == [items[0]] + items[1..];
    }
  }

  lemma {:induction false} CanonicalFixed(v: Value)
    requires IsCanonical(v)
    ensures Canonical(v) == Ok(v)
    decreases v, 1
  {
    match v
    case List(items) => CanonicalItemsFixed(items);
    case Object(ms) => CanonicalMembersFixed(ms); SortOfAscending(ms);
    case _ =>
  }

  /** `toCanonical` is idempotent. */
  lemma CanonicalIdempotent(v: Value)
    requires WellFormed(v) && Canonical(v).Ok?
    ensures Canonical(Canonical(v).value) == Canonical(v)
  {
    CanonicalIsCanonical(v);
    CanonicalFixed(Canonical(v).value);
  }

  // ---------------------------------------------------------------- equal canonical forms mean equivalent values

  lemma {:induction false} CanonicalEqualIffEquivalent(a: Value, b: Value)
    requires WellFormed(a) && WellFormed(b) && Canonical(a).Ok? && Canonical(b).Ok?
    ensures Canonical(a) == Canonical(b) <==> Equivalent(a, b)
    decreases a
  {
    match a
    case List(items) =>
      if b.List? {
        CanonicalItemsAre(items);
        CanonicalItemsAre(b.items);
        if |items| == |b.items| {
          forall i | 0 <= i < |items|
            ensures Canonical(items[i]) == Canonical(b.items[i]) <==> Equivalent(items[i], b.items[i])
          {
            CanonicalEqualIffEquivalent(items[i], b.items[i]);
          }
          ListsEqualIff(items, b.items);
        }
      }
    case Object(ms) =>
      if b.Object? {
        forall m, n | m in ms && n in b.members && !m.value.Undefined? && !n.value.Undefined?
          ensures Agrees(m.value, n.value)
        {
          CanonicalMembersOk(ms, m);
          CanonicalMembersOk(b.members, n);
          CanonicalEqualIffEquivalent(m.value, n.value);
        }
        ObjectsEqualIff(ms, b.members);
      }
    case _ =>
  }

  lemma ListsEqualIff(items: seq<Value>, others: seq<Value>)
    requires CanonicalItems(items).Ok? && CanonicalItems(others).Ok? && |items| == |others|
    ensures CanonicalItems(items) == CanonicalItems(others) <==>
      forall i :: 0 <= i < |items| ==> Canonical(items[i]) == Canonical(others[i])
  {
    CanonicalItemsAre(items);
    CanonicalItemsAre(others);
    if forall i :: 0 <= i < |items| ==> Canonical(items[i]) == Canonical(others[i]) {
      assert CanonicalItems(items).value == CanonicalItems(others).value;
    }
  }

  /** `ns` has a defined member of the same name and canonical form. */
  ghost predicate SameIn(m: Keyed<Value>, ns: Members) {
    exists n :: n in ns && !n.value.Undefined? && n.key == m.key && Canonical(n.value) == Canonical(m.value)
  }

  ghost predicate Covers(ms: Members, ns: Members) {
    forall m | m in ms && !m.value.Undefined? :: SameIn(m, ns)
  }

  lemma CoversIsSubset(ms: Members, ns: Members)
    requires CanonicalMembers(ms).Ok? && CanonicalMembers(ns).Ok?
    ensures Covers(ms, ns) <==> forall e :: e in CanonicalMembers(ms).value ==> e in CanonicalMembers(ns).value
  {
    var A, B := CanonicalMembers(ms).value, CanonicalMembers(ns).value;
    if Covers(ms, ns) {
      forall e | e in A ensures e in B {
        CanonicalMembersAre(ms, e);
        var m :| m in ms && !m.value.Undefined? && m.key == e.key && Canonical(m.value) == Ok(e.value);
        assert SameIn(m, ns);
        CanonicalMembersAre(ns, e);
      }
    }
    if forall e :: e in A ==> e in B {
      forall m | m in ms && !m.value.Undefined? ensures SameIn(m, ns) {
        CanonicalMembersOk(ms, m);
        var e := Keyed(m.key, Canonical(m.value).value);
        CanonicalMembersAre(ms, e);
        CanonicalMembersAre(ns, e);
      }
    }
  }

  lemma SortsEqualIff(ms: Members, ns: Members)
    requires DistinctKeys(ms) && DistinctKeys(ns) && CanonicalMembers(ms).Ok? && CanonicalMembers(ns).Ok?
    ensures Sort(CanonicalMembers(ms).value) == Sort(CanonicalMembers(ns).value) <==> Covers(ms, ns) && Covers(ns, ms)
  {
    var A, B := CanonicalMembers(ms).value, CanonicalMembers(ns).value;
    CanonicalMembersDistinct(ms);
    CanonicalMembersDistinct(ns);
    SortAscends(A);
    SortAscends(B);
    forall e ensures (e in Sort(A) <==> e in A) && (e in Sort(B) <==> e in B) { SortMembers(A, e); SortMembers(B, e); }
    CoversIsSubset(ms, ns);
    CoversIsSubset(ns, ms);
    if Covers(ms, ns) && Covers(ns, ms) { AscendingUnique(Sort(A), Sort(B)); }
    if Sort(A) == Sort(B) {
      assert forall e :: e in A ==> e in B;
      assert forall e :: e in B ==> e in A;
    }
  }

  /** On defined members, equal canonical forms and equivalence are the same. */
  ghost predicate MembersAgree(ms: Members, ns: Members) {
    forall m, n :: m in ms && n in ns && !m.value.Undefined? && !n.value.Undefined? ==> Agrees(m.value, n.value)
  }

  ghost predicate Agrees(a: Value, b: Value) { Canonical(a) == Canonical(b) <==> Equivalent(a, b) }

  lemma MatchedIsSame(m: Keyed<Value>, ns: Members)
    requires !m.value.Undefined? && forall n :: n in ns && !n.value.Undefined? ==> Agrees(m.value, n.value)
    ensures MatchedIn(m, ns) <==> SameIn(m, ns)
  {
    if MatchedIn(m, ns) {
      var n :| n in ns && n.key == m.key && Equivalent(m.value, n.value);
      assert !n.value.Undefined?;
      assert Agrees(m.value, n.value);
    }
    if SameIn(m, ns) {
      var n :| n in ns && !n.value.Undefined? && n.key == m.key && Canonical(n.value) == Canonical(m.value);
      assert Agrees(m.value, n.value);
    }
  }

  /** With distinct names, a member that is named on the other side and matched from there is the same there. */
  lemma NamedIsSame(n: Keyed<Value>, ms: Members, ns: Members)
    requires DistinctKeys(ns) && n in ns && !n.value.Undefined? && Covers(ms, ns)
    ensures NamedIn(n, ms) <==> SameIn(n, ms)
  {
    if NamedIn(n, ms) {
      var m :| m in ms && m.key == n.key && !m.value.Undefined?;
      assert SameIn(m, ns);
      var k :| k in ns && !k.value.Undefined? && k.key == m.key && Canonical(k.value) == Canonical(m.value);
      assert k == n;
    }
  }

  lemma ObjectsEqualIff(ms: Members, ns: Members)
    requires DistinctKeys(ms) && DistinctKeys(ns) && CanonicalMembers(ms).Ok? && CanonicalMembers(ns).Ok?
    requires MembersAgree(ms, ns)
    ensures Agrees(Object(ms), Object(ns))
  {
    SortsEqualIff(ms, ns);
    forall m | m in ms && !m.value.Undefined? ensures MatchedIn(m, ns) <==> SameIn(m, ns) { MatchedIsSame(m, ns); }
    if Covers(ms, ns) {
      forall n | n in ns && !n.value.Undefined? ensures NamedIn(n, ms) <==> SameIn(n, ms) { NamedIsSame(n, ms, ns); }
    }
  }

  // ---------------------------------------------------------------- the key loop

  /** A prefix of the members decides a prefix of the canonical members. */
  lemma {:induction false} CanonicalMembersAppend(ms: Members, m: Keyed<Value>)
    ensures var before, after := CanonicalMembers(ms), CanonicalMembers(ms + [m]);
      if before.Err? then after.Err?
      else if m.value.Undefined? then after == before
      else if Canonical(m.value).Err? then after.Err?
      else after == Ok(before.value + [Keyed(m.key, Canonical(m.value).value)])
    decreases |ms|
  {
    if ms == [] {
      assert [] + [m] == [m] && [m][1..] == [];
      assert CanonicalMembers([m][1..]) == Ok([]);
      if !m.value.Undefined? && Canonical(m.value).Ok? {
        var last := Keyed(m.key, Canonical(m.value).value);
        assert [last] + [] == [] + [last];
      }
    } else {
      assert (ms + [m])[1..] == ms[1..] + [m];
      CanonicalMembersAppend(ms[1..], m);
      var first, rest := Canonical(ms[0].value), CanonicalMembers(ms[1..]);
      if !ms[0].value.Undefined? && first.Ok? && rest.Ok? && Canonical(m.value).Ok? {
        var head, last := Keyed(ms[0].key, first.value), Keyed(m.key, Canonical(m.value).value);
        assert [head] + (rest.value + [last]) == ([head] + rest.value) + [last];
      }
    }
  }

  /** The only error is the unsupported value. */
  lemma {:induction false} OneError(v: Value)
    ensures Canonical(v).Err? ==> Canonical(v) == Err(InvalidInput)
    decreases v, 1
  {
    match v
    case List(items) => ItemsError(items);
    case Object(ms) => MembersError(ms);
    case _ =>
  }

  lemma {:induction false} ItemsError(items: seq<Value>)
    ensures CanonicalItems(items).Err? ==> CanonicalItems(items) == Err(InvalidInput)
    decreases items, 0
  {
    if items != [] { OneError(items[0]); ItemsError(items[1..]); }
  }

  lemma {:induction false} MembersError(ms: Members)
    ensures CanonicalMembers(ms).Err? ==> CanonicalMembers(ms) == Err(InvalidInput)
    decreases ms, 0
  {
    if ms != [] { OneError(ms[0].value); MembersError(ms[1..]); }
  }

  /** Members are refused exactly when a defined one is. */
  lemma {:induction false} MembersRefused(ms: Members)
    ensures CanonicalMembers(ms).Err? <==> exists m :: m in ms && !m.value.Undefined? && Canonical(m.value).Err?
    decreases |ms|
  {
    if ms != [] {
      assert ms == [ms[0]] + ms[1..];
      MembersRefused(ms[1..]);
    }
  }

  /** Visiting the members in key order builds the canonical members already sorted. */
  lemma SortThenCanonical(ms: Members)
    requires DistinctKeys(ms)
    ensures var inOrder, sorted := CanonicalMembers(Sort(ms)), CanonicalMembers(ms);
      (inOrder.Err? <==> sorted.Err?) && (sorted.Ok? ==> inOrder.value == Sort(sorted.value))
  {
    forall m ensures m in Sort(ms) <==> m in ms { SortMembers(ms, m); }
    MembersRefused(ms);
    MembersRefused(Sort(ms));
    if CanonicalMembers(ms).Ok? {
      var inOrder, out := CanonicalMembers(Sort(ms)).value, CanonicalMembers(ms).value;
      SortAscends(ms);
      CanonicalMembersAscend(Sort(ms));
      CanonicalMembersDistinct(ms);
      SortAscends(out);
      forall e ensures e in inOrder <==> e in Sort(out) {
        SortMembers(out, e);
        CanonicalMembersAre(ms, e);
        CanonicalMembersAre(Sort(ms), e);
      }
      AscendingUnique(inOrder, Sort(out));
    }
  }

  lemma {:induction false} CanonicalMembersAscend(ms: Members)
    requires Ascending(ms) && CanonicalMembers(ms).Ok?
    ensures Ascending(CanonicalMembers(ms).value)
    decreases |ms|
  {
    if ms != [] {
      CanonicalMembersAscend(ms[1..]);
      var rest := CanonicalMembers(ms[1..]).value;
      forall i | 0 <= i < |rest| ensures Less(ms[0].key, rest[i].key) {
        CanonicalMembersAre(ms[1..], rest[i]);
        var m :| m in ms[1..] && !m.value.Undefined? && m.key == rest[i].key && Canonical(m.value) == Ok(rest[i].value);
      }
    }
  }

  /** `toCanonical`, filling each object's output in key order. */
  method ToCanonical(v: Value) returns (r: Result<Value>)
    requires WellFormed(v)
    ensures r == Canonical(v)
    decreases v
  {
    OneError(v);
    match v {
      case Undefined => return Err(InvalidInput);
      case Null => return Ok(v);
      case Boolean(_) => return Ok(v);
      case String(_) => return Ok(v);
      case Number(n) => return if -MAX_SAFE_INTEGER <= n <= MAX_SAFE_INTEGER then Ok(v) else Err(InvalidInput);
      case List(items) =>
        var out := CanonicalItems(items);
        return if out.Ok? then Ok(List(out.value)) else Err(out.error);
      case Object(members) =>
        var sorted, output, i := Sort(members), [], 0;
        SortThenCanonical(members);
        while i < |sorted|
          invariant 0 <= i <= |sorted| && CanonicalMembers(sorted[..i]) == Ok(output)
        {
          var item := sorted[i].value;
          SortMembers(members, sorted[i]);
          assert sorted[..i] + [sorted[i]] == sorted[..i + 1];
          CanonicalMembersAppend(sorted[..i], sorted[i]);
          if !item.Undefined? {
            ghost var j :| 0 <= j < |members| && members[j] == sorted[i];
            var c := ToCanonical(item);
            if c.Err? {
              MembersRefused(sorted);
              return Err(InvalidInput);
            }
            output := output + [Keyed(sorted[i].key, c.value)];
          }
          i := i + 1;
        }
        assert sorted[..i] == sorted;
        return Ok(Object(output));
    }
  }
}
