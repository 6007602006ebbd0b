/** Code-unit order on text, and sorting of keyed entries by it: the order behind every sealed byte sequence. */
module CodeUnitOrder {

  type Text = seq<int>

  predicate Less(a: Text, b: Text) {
    b != [] && (a == [] || a[0] < b[0] || (a[0] == b[0] && Less(a[1..], b[1..])))
  }

  lemma {:induction false} LessTotal(a: Text, b: Text)
    ensures Less(a, b) || a == b || Less(b, a)
    decreases |a|
  {
    if a != [] && b != [] && a[0] == b[0] {
      LessTotal(a[1..], b[1..]);
      assert a == [a[0]] + a[1..] && b == [b[0]] + b[1..];
    }
  }

  lemma {:induction false} LessTransitive(a: Text, b: Text, c: Text)
    requires Less(a, b) && Less(b, c)
    ensures Less(a, c)
    decreases |a|
  {
    if a != [] && a[0] == b[0] && b[0] == c[0] { LessTransitive(a[1..], b[1..], c[1..]); }
  }

  lemma {:induction false} LessIrreflexive(a: Text)
    ensures !Less(a, a)
    decreases |a|
  {
    if a != [] { LessIrreflexive(a[1..]); }
  }

  // ---------------------------------------------------------------- entries with distinct keys

  datatype Keyed<T> = Keyed(key: Text, value: T)

  ghost predicate DistinctKeys<T>(s: seq<Keyed<T>>) {
    forall i, j :: 0 <= i < j < |s| ==> s[i].key != s[j].key
  }

  ghost predicate Ascending<T>(s: seq<Keyed<T>>) {
    forall i, j :: 0 <= i < j < |s| ==> Less(s[i].key, s[j].key)
  }

  lemma AscendingDistinct<T>(s: seq<Keyed<T>>)
    requires Ascending(s)
    ensures DistinctKeys(s)
  {
    forall i, j | 0 <= i < j < |s| ensures s[i].key != s[j].key { LessIrreflexive(s[i].key); }
  }

  function Insert<T>(e: Keyed<T>, s: seq<Keyed<T>>): seq<Keyed<T>> {
    if s == [] || Less(e.key, s[0].key) then [e] + s else [s[0]] + Insert(e, s[1..])
  }

  function Sort<T>(s: seq<Keyed<T>>): seq<Keyed<T>> {
    if s == [] then [] else Insert(s[0], Sort(s[1..]))
  }

  lemma {:induction false} InsertPermutes<T>(e: Keyed<T>, s: seq<Keyed<T>>)
    ensures multiset(Insert(e, s)) == multiset(s) + multiset{e}
    ensures |Insert(e, s)| == |s| + 1
    decreases |s|
  {
    if s != [] && !Less(e.key, s[0].key) {
      InsertPermutes(e, s[1..]);
      assert s == [s[0]] + s[1..];
    }
  }

  lemma {:induction false} InsertAscends<T>(e: Keyed<T>, s: seq<Keyed<T>>)
    requires Ascending(s) && forall i :: 0 <= i < |s| ==> s[i].key != e.key
    ensures Ascending(Insert(e, s))
    decreases |s|
  {
    if s == [] {
    } else if Less(e.key, s[0].key) {
      forall j | 0 <= j < |s| ensures Less(e.key, s[j].key) {
        if j > 0 { LessTransitive(e.key, s[0].key, s[j].key); }
      }
    } else {
      LessTotal(e.key, s[0].key);
      InsertAscends(e, s[1..]);
      InsertPermutes(e, s[1..]);
      var rest := Insert(e, s[1..]);
      forall j | 0 <= j < |rest| ensures Less(s[0].key, rest[j].key) {
        assert rest[j] in multiset(rest);
      }
    }
  }

  /** Sorting keeps the entries. */
  lemma {:induction false} SortPermutes<T>(s: seq<Keyed<T>>)
    ensures multiset(Sort(s)) == multiset(s) && |Sort(s)| == |s|
    decreases |s|
  {
    if s != [] {
      SortPermutes(s[1..]);
      InsertPermutes(s[0], Sort(s[1..]));
      assert s == [s[0]] + s[1..];
    }
  }

  /** Sorting puts distinct keys in ascending order. */
  lemma {:induction false} SortAscends<T>(s: seq<Keyed<T>>)
    requires DistinctKeys(s)
    ensures Ascending(Sort(s))
    decreases |s|
  {
    if s != [] {
      SortAscends(s[1..]);
      var rest := Sort(s[1..]);
      forall i | 0 <= i < |rest| ensures rest[i].key != s[0].key {
        SortPermutes(s[1..]);
        assert rest[i] in multiset(rest);
        assert rest[i] in s[1..];
      }
      InsertAscends(s[0], rest);
    }
  }

  lemma SortMembers<T>(s: seq<Keyed<T>>, e: Keyed<T>)
    ensures e in Sort(s) <==> e in s
  {
    SortPermutes(s);
    assert e in Sort(s) <==> e in multiset(Sort(s));
    assert e in s <==> e in multiset(s);
  }

  /** An ascending sequence is determined by its entries. */
  lemma {:induction false} AscendingUnique<T>(a: seq<Keyed<T>>, b: seq<Keyed<T>>)
    requires Ascending(a) && Ascending(b)
    requires forall e :: e in a <==> e in b
    ensures a == b
    decreases |a|
  {
    FirstIsMember(a);
    FirstIsMember(b);
    if a != [] && b != [] {
      FirstIsLeast(a, b[0]);
      FirstIsLeast(b, a[0]);
      if Less(a[0].key, b[0].key) && Less(b[0].key, a[0].key) {
        LessTransitive(a[0].key, b[0].key, a[0].key);
        LessIrreflexive(a[0].key);
      }
      assert a[0] == b[0];
      forall e ensures e in a[1..] <==> e in b[1..] {
        TailMembers(a, e);
        TailMembers(b, e);
      }
      AscendingUnique(a[1..], b[1..]);
      assert a == [a[0]] + a[1..] && b == [b[0]] + b[1..];
    }
  }

  lemma FirstIsMember<T>(s: seq<Keyed<T>>)
    ensures s != [] ==> s[0] in s
  {
  }

  lemma FirstIsLeast<T>(s: seq<Keyed<T>>, e: Keyed<T>)
    requires Ascending(s) && e in s
    ensures e == s[0] || Less(s[0].key, e.key)
  {
  }

  lemma TailMembers<T>(s: seq<Keyed<T>>, e: Keyed<T>)
    requires Ascending(s) && s != []
    ensures e in s[1..] <==> e in s && e != s[0]
  {
    if e in s[1..] {
      var i :| 0 <= i < |s[1..]| && s[1..][i] == e;
      LessIrreflexive(s[0].key);
      assert Less(s[0].key, s[i + 1].key);
    }
    if e in s && e != s[0] {
      var i :| 0 <= i < |s| && s[i] == e;
      assert s[1..][i - 1] == e;
    }
  }
}
