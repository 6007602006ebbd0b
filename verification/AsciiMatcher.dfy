/** The streaming Knuth-Morris-Pratt matcher over provider output, folding ASCII letters, fed chunk by chunk. */
module AsciiMatcher {

  type Byte = b: int | 0 <= b < 256

  // ---------------------------------------------------------------- what is being computed

  /** The first `k` bytes of `p` are the last `k` bytes of `t`. */
  predicate Matches(p: seq<Byte>, t: seq<Byte>, k: nat) {
    k <= |p| && k <= |t| && p[..k] == t[|t| - k..]
  }

  ghost predicate Longest(p: seq<Byte>, t: seq<Byte>, k: nat) {
    Matches(p, t, k) && forall j: nat :: Matches(p, t, j) ==> j <= k
  }

  /** A proper border of `s`: a prefix that is also a suffix, shorter than `s`. */
  predicate Border(s: seq<Byte>, k: nat) { k < |s| && s[..k] == s[|s| - k..] }

  ghost predicate LongestBorder(s: seq<Byte>, k: nat) { Border(s, k) && forall j: nat :: Border(s, j) ==> j <= k }

  predicate OccursAt(p: seq<Byte>, t: seq<Byte>, i: nat) { i + |p| <= |t| && t[i..i + |p|] == p }

  ghost predicate Occurs(p: seq<Byte>, t: seq<Byte>) { exists i: nat :: OccursAt(p, t, i) }

  function Fold(b: Byte): Byte { if 0x41 <= b <= 0x5a then b + 0x20 else b }

  function FoldAll(s: seq<Byte>): (r: seq<Byte>)
    ensures |r| == |s| && forall i :: 0 <= i < |s| ==> r[i] == Fold(s[i])
  {
    seq(|s|, i requires 0 <= i < |s| => Fold(s[i]))
  }

  function Concat(chunks: seq<seq<Byte>>): seq<Byte> {
    if chunks == [] then [] else Concat(chunks[..|chunks| - 1]) + chunks[|chunks| - 1]
  }

  /** Table entry `i` is the longest proper border of the first `i + 1` bytes. */
  ghost predicate Entry(p: seq<Byte>, i: nat, k: nat) { i < |p| && LongestBorder(p[..i + 1], k) }

  ghost predicate FilledTo(p: seq<Byte>, table: seq<nat>, n: nat) {
    n <= |p| == |table| && forall i :: 0 <= i < n ==> Entry(p, i, table[i])
  }

  ghost predicate IsPrefixTable(p: seq<Byte>, table: seq<nat>) { FilledTo(p, table, |p|) }

  // ---------------------------------------------------------------- borders and matches

  /** A proper border of a prefix of `p` is a match of `p` against that prefix without its first byte. */
  lemma BorderIsMatch(p: seq<Byte>, n: nat, k: nat)
    requires 1 <= n <= |p|
    ensures Border(p[..n], k) <==> Matches(p, p[1..n], k)
  {
    if k < n {
      assert p[..n][..k] == p[..k];
      assert p[..n][n - k..] == p[1..n][n - 1 - k..];
    }
  }

  /** One byte extends exactly the matches that it continues. */
  lemma ExtendMatch(p: seq<Byte>, t: seq<Byte>, c: Byte, j: nat)
    ensures Matches(p, t + [c], j + 1) <==> Matches(p, t, j) && j < |p| && p[j] == c
  {
    var u := t + [c];
    if j < |p| && j <= |t| {
      var k := j + 1;
      assert u[|u| - k..] == t[|t| - j..] + [c];
      assert p[..k] == p[..j] + [p[j]];
    }
  }

  /** Below a match, the shorter matches are exactly the borders of what is matched. */
  lemma ShorterMatches(p: seq<Byte>, t: seq<Byte>, m: nat, j: nat)
    requires Matches(p, t, m) && j < m
    ensures Matches(p, t, j) <==> Border(p[..m], j)
  {
    assert p[..m][..j] == p[..j];
    assert p[..m][m - j..] == t[|t| - m..][m - j..] == t[|t| - j..];
  }

  /** What the fallback loop keeps: a match below which nothing was skipped, and above which nothing continues with
      `c`. */
  ghost predicate Falling(p: seq<Byte>, t: seq<Byte>, c: Byte, m: nat) {
    && m < |p| && Matches(p, t, m)
    && forall j: nat :: m < j < |p| && Matches(p, t, j) ==> p[j] != c
  }

  lemma FallBack(p: seq<Byte>, t: seq<Byte>, c: Byte, m: nat, next: nat)
    requires Falling(p, t, c, m) && 0 < m && p[m] != c
    requires Entry(p, m - 1, next)
    ensures next < m && Falling(p, t, c, next)
  {
    assert p[..m - 1 + 1] == p[..m];
    ShorterMatches(p, t, m, next);
    forall j: nat | next < j < |p| && Matches(p, t, j) ensures p[j] != c {
      if j < m { ShorterMatches(p, t, m, j); }
    }
  }

  /** The fallback loop has found the longest match that `c` continues, or there is none. */
  lemma Extended(p: seq<Byte>, t: seq<Byte>, c: Byte, m: nat)
    requires Falling(p, t, c, m) && (m == 0 || p[m] == c)
    ensures Longest(p, t + [c], if p[m] == c then m + 1 else 0)
  {
    var u, k := t + [c], if p[m] == c then m + 1 else 0;
    if p[m] == c { ExtendMatch(p, t, c, m); }
    forall j: nat | Matches(p, u, j) ensures j <= k {
      if j > 0 { ExtendMatch(p, t, c, j - 1); }
    }
  }

  lemma StartFalling(p: seq<Byte>, t: seq<Byte>, c: Byte, m: nat)
    requires Longest(p, t, m) && m < |p|
    ensures Falling(p, t, c, m)
  {
  }

  // ---------------------------------------------------------------- the prefix table

  method BuildPrefixTable(pattern: seq<Byte>) returns (prefix: array<nat>)
    ensures fresh(prefix) && IsPrefixTable(pattern, prefix[..])
  {
    prefix := new nat[|pattern|](_ => 0);
    if |pattern| == 0 { return; }
    var index, matched: nat := 1, 0;
    FirstEntry(pattern);
    while index < |pattern|
      invariant 1 <= index <= |pattern| && FilledTo(pattern, prefix[..], index)
      invariant Longest(pattern, pattern[1..index], matched)
    {
      ghost var filled := prefix[..];
      StartFalling(pattern, pattern[1..index], pattern[index], matched);
      matched := Continue(pattern, prefix, index, matched);
      FillNext(pattern, filled, index, matched);
      if pattern[index] == pattern[matched] { matched := matched + 1; }
      prefix[index] := matched;
      assert prefix[..] == filled[index := matched];
      index := index + 1;
    }
  }

  /** The inner loop: fall back along the borders found so far until the byte at `index` continues one of them. */
  method Continue(pattern: seq<Byte>, prefix: array<nat>, index: nat, start: nat) returns (matched: nat)
    requires 1 <= index < |pattern| && FilledTo(pattern, prefix[..], index)
    requires start < index && Falling(pattern, pattern[1..index], pattern[index], start)
    ensures matched < index && Falling(pattern, pattern[1..index], pattern[index], matched)
    ensures matched == 0 || pattern[matched] == pattern[index]
  {
    matched := start;
    while matched > 0 && pattern[index] != pattern[matched]
      invariant matched < index && Falling(pattern, pattern[1..index], pattern[index], matched)
    {
      assert Entry(pattern, matched - 1, prefix[..][matched - 1]);
      FallBack(pattern, pattern[1..index], pattern[index], matched, prefix[matched - 1]);
      matched := prefix[matched - 1];
    }
  }

  lemma FirstEntry(p: seq<Byte>)
    requires |p| > 0
    ensures Entry(p, 0, 0) && Longest(p, p[1..1], 0)
  {
  }

  /** Where the fallback stops decides the next entry. */
  lemma FillNext(p: seq<Byte>, table: seq<nat>, n: nat, m: nat)
    requires 1 <= n < |p| && FilledTo(p, table, n)
    requires Falling(p, p[1..n], p[n], m) && (m == 0 || p[m] == p[n])
    ensures var k := if p[m] == p[n] then m + 1 else 0;
      Longest(p, p[1..n + 1], k) && FilledTo(p, table[n := k], n + 1)
  {
    Extended(p, p[1..n], p[n], m);
    assert p[1..n] + [p[n]] == p[1..n + 1];
    LongestMatchIsBorder(p, n + 1, if p[m] == p[n] then m + 1 else 0);
  }

  lemma LongestMatchIsBorder(p: seq<Byte>, n: nat, k: nat)
    requires 1 <= n <= |p| && Longest(p, p[1..n], k)
    ensures LongestBorder(p[..n], k)
  {
    forall j: nat ensures Border(p[..n], j) <==> Matches(p, p[1..n], j) { BorderIsMatch(p, n, j); }
  }

  // ---------------------------------------------------------------- the matcher

  /** A full match at the end is an occurrence; without one, a byte adds no occurrence. */
  lemma OccurrenceGrows(p: seq<Byte>, t: seq<Byte>, c: Byte)
    requires |p| > 0
    ensures Occurs(p, t + [c]) <==> Occurs(p, t) || Matches(p, t + [c], |p|)
  {
    var u := t + [c];
    if Occurs(p, t) {
      var i: nat :| OccursAt(p, t, i);
      assert OccursAt(p, u, i);
    }
    if Matches(p, u, |p|) {
      assert u[|u| - |p|..|u| - |p| + |p|] == u[|u| - |p|..];
      assert OccursAt(p, u, |u| - |p|);
    }
    if Occurs(p, u) {
      var i: nat :| OccursAt(p, u, i);
      if i + |p| <= |t| { assert OccursAt(p, t, i); } else { assert u[|u| - |p|..] == u[i..i + |p|]; }
    }
  }

  /** Where the fallback stops decides whether the byte completes an occurrence, and otherwise the longest match. */
  lemma Fed(p: seq<Byte>, t: seq<Byte>, c: Byte, m: nat)
    requires m < |p| && !Occurs(p, t) && Falling(p, t, c, m) && (m == 0 || p[m] == c)
    ensures var k := if c == p[m] then m + 1 else 0;
      if k == |p| then Occurs(p, t + [c]) else !Occurs(p, t + [c]) && Longest(p, t + [c], k)
  {
    Extended(p, t, c, m);
    OccurrenceGrows(p, t, c);
  }

  lemma OccurrenceStays(p: seq<Byte>, t: seq<Byte>, more: seq<Byte>)
    requires Occurs(p, t)
    ensures Occurs(p, t + more)
  {
    var i: nat :| OccursAt(p, t, i);
    assert OccursAt(p, t + more, i);
  }

  /** The scan state for one output stream; `text` is everything fed so far, folded. */
  class Matcher {
    const pattern: seq<Byte>
    const prefix: seq<nat>
    var matched: nat
    var found: bool
    ghost var text: seq<Byte>

    ghost predicate Valid()
      reads this
    {
      && |pattern| > 0 && IsPrefixTable(pattern, prefix)
      && (found <==> Occurs(pattern, text))
      && (found ==> matched == 0)
      && (!found ==> matched < |pattern| && Longest(pattern, text, matched))
    }

    constructor (pattern: seq<Byte>, prefix: seq<nat>)
      requires |pattern| > 0 && IsPrefixTable(pattern, prefix)
      ensures Valid() && text == [] && this.pattern == pattern && this.prefix == prefix
    {
      this.pattern, this.prefix := pattern, prefix;
      matched, found, text := 0, false, [];
    }

    /** Feed one chunk: afterwards `found` says whether the pattern occurs anywhere in the folded text so far. */
    method Consume(bytes: seq<Byte>)
      requires Valid()
      modifies this
      ensures Valid() && text == old(text) + FoldAll(bytes)
    {
      ghost var folded := FoldAll(bytes);
      if found {
        OccurrenceStays(pattern, text, folded);
        text := text + folded;
        return;
      }
      ghost var before := text;
      var i := 0;
      while i < |bytes| && !found
        invariant 0 <= i <= |bytes| && Valid()
        invariant text == before + folded[..i]
      {
        ConsumeByte(bytes[i]);
        i := i + 1;
      }
      if found {
        OccurrenceStays(pattern, text, folded[i..]);
        text := text + folded[i..];
      }
      assert text == before + folded;
    }

    /** One byte: fall back along the borders until it continues the match, then extend, then look for a full match. */
    method ConsumeByte(byte: Byte)
      requires Valid() && !found
      modifies this
      ensures Valid() && text == old(text) + [Fold(byte)]
    {
      var folded := if 0x41 <= byte <= 0x5a then byte + 0x20 else byte;
      ghost var t := text;
      StartFalling(pattern, t, folded, matched);
      while matched > 0 && folded != pattern[matched]
        invariant Falling(pattern, t, folded, matched)
        invariant !found && text == t
      {
        assert Entry(pattern, matched - 1, prefix[matched - 1]);
        FallBack(pattern, t, folded, matched, prefix[matched - 1]);
        matched := prefix[matched - 1];
      }
      Fed(pattern, t, folded, matched);
      if folded == pattern[matched] { matched := matched + 1; }
      text := t + [folded];
      if matched == |pattern| {
        found := true;
        matched := 0;
      }
    }
  }

  // ---------------------------------------------------------------- what folding means

  const CAPITALS := "ABCDEFGHIJKLMNOPQRSTUVWXYZ"
  const SMALL := "abcdefghijklmnopqrstuvwxyz"

  /** Each capital goes to its own small letter, and every other byte stays. */
  lemma FoldingLetters(b: Byte)
    ensures forall k :: 0 <= k < 26 && b == CAPITALS[k] as int ==> Fold(b) == SMALL[k] as int
    ensures b as char !in CAPITALS ==> Fold(b) == b
  {
    CapitalsInOrder(b);
  }

  lemma CapitalsInOrder(b: Byte)
    ensures forall k :: 0 <= k < 26 ==> CAPITALS[k] as int == 65 + k && SMALL[k] as int == 97 + k
    ensures 65 <= b <= 90 ==> CAPITALS[b - 65] == b as char
  {
    forall k | 0 <= k < 26 ensures CAPITALS[k] as int == 65 + k && SMALL[k] as int == 97 + k { LetterAt(k); }
    if 65 <= b <= 90 { LetterAt(b - 65); }
  }

  lemma LetterAt(k: nat)
    requires k < 26
    ensures CAPITALS[k] as int == 65 + k && SMALL[k] as int == 97 + k
  {
  }

  predicate NoCapitals(p: seq<Byte>) { forall k :: 0 <= k < |p| ==> p[k] as char !in CAPITALS }

  /** The text's byte reads as the pattern's: the same byte, or the capital of the pattern's small letter. */
  predicate ReadsAs(b: Byte, wanted: Byte) {
    b == wanted || exists k :: 0 <= k < 26 && b == CAPITALS[k] as int && wanted == SMALL[k] as int
  }

  ghost predicate ReadsAt(p: seq<Byte>, t: seq<Byte>, i: nat) {
    i + |p| <= |t| && forall k :: 0 <= k < |p| ==> ReadsAs(t[i + k], p[k])
  }

  lemma FoldReads(b: Byte, wanted: Byte)
    requires wanted as char !in CAPITALS
    ensures Fold(b) == wanted <==> ReadsAs(b, wanted)
  {
    CapitalsInOrder(b);
    CapitalsInOrder(wanted);
    if 65 <= b <= 90 { assert CAPITALS[b - 65] as int == b && SMALL[b - 65] as int == Fold(b); }
  }

  /** A pattern without capitals occurs in the folded text exactly where a stretch of the text reads as it. */
  lemma FoldedOccurrence(p: seq<Byte>, t: seq<Byte>, i: nat)
    requires NoCapitals(p)
    ensures OccursAt(p, FoldAll(t), i) <==> ReadsAt(p, t, i)
  {
    if i + |p| <= |t| {
      var stretch := FoldAll(t)[i..i + |p|];
      forall k | 0 <= k < |p| ensures stretch[k] == p[k] <==> ReadsAs(t[i + k], p[k]) { FoldReads(t[i + k], p[k]); }
    }
  }

  /** A pattern with a capital is never found: no folded byte is one. */
  lemma CapitalNeverOccurs(p: seq<Byte>, t: seq<Byte>, k: nat)
    requires k < |p| && p[k] as char in CAPITALS
    ensures !Occurs(p, FoldAll(t))
  {
    forall i: nat ensures !OccursAt(p, FoldAll(t), i) {
      if i + |p| <= |t| {
        NeverCapital(t[i + k]);
        assert FoldAll(t)[i..i + |p|][k] == Fold(t[i + k]);
      }
    }
  }

  lemma NeverCapital(b: Byte)
    ensures Fold(b) as char !in CAPITALS
  {
    CapitalsInOrder(b);
  }

  lemma FoldConcat(a: seq<Byte>, b: seq<Byte>)
    ensures FoldAll(a + b) == FoldAll(a) + FoldAll(b)
  {
  }

  lemma WhatIsFound(p: seq<Byte>, t: seq<Byte>)
    ensures Occurs(p, FoldAll(t)) <==> NoCapitals(p) && exists i: nat :: ReadsAt(p, t, i)
  {
    if NoCapitals(p) {
      forall i: nat ensures OccursAt(p, FoldAll(t), i) <==> ReadsAt(p, t, i) { FoldedOccurrence(p, t, i); }
    } else {
      var k :| 0 <= k < |p| && p[k] as char in CAPITALS;
      CapitalNeverOccurs(p, t, k);
    }
  }

  /** However the output is split into chunks, the matcher reports exactly whether some stretch of their concatenation
      reads as the pattern: byte for byte, or with capitals for the pattern's small letters. */
  method ScanStream(pattern: seq<Byte>, chunks: seq<seq<Byte>>) returns (found: bool)
    requires |pattern| > 0
    ensures found <==> NoCapitals(pattern) && exists i: nat :: ReadsAt(pattern, Concat(chunks), i)
  {
    var table := BuildPrefixTable(pattern);
    var matcher := new Matcher(pattern, table[..]);
    for i := 0 to |chunks|
      invariant fresh(matcher) && matcher.Valid() && matcher.pattern == pattern
      invariant matcher.text == FoldAll(Concat(chunks[..i]))
    {
      assert chunks[..i + 1][..i] == chunks[..i];
      FoldConcat(Concat(chunks[..i]), chunks[i]);
      matcher.Consume(chunks[i]);
    }
    assert chunks[..|chunks|] == chunks;
    found := matcher.found;
    WhatIsFound(pattern, Concat(chunks));
  }
}
