/** `JSON.stringify` of canonical values: the text behind every digest, as a JavaScript engine prints it. */
module JsonText {
  import opened Basics
  import opened CodeUnitOrder
  import opened CanonicalJson

  // ---------------------------------------------------------------- JSON.stringify

  predicate HighSurrogate(u: int) { 0xD800 <= u <= 0xDBFF }
  predicate LowSurrogate(u: int) { 0xDC00 <= u <= 0xDFFF }

  function HexDigit(d: int): (u: int)
    requires 0 <= d < 16
    ensures 48 <= u <= 57 || 97 <= u <= 102
  {
    if d < 10 then 48 + d else 87 + d
  }

  /** A backslash, `u` and four lower-case hexadecimal digits. */
  function UnicodeEscape(u: int): Text
    requires 0 <= u < 0x10000
  {
    [92, 117, HexDigit(u / 16 / 16 / 16), HexDigit(u / 16 / 16 % 16), HexDigit(u / 16 % 16), HexDigit(u % 16)]
  }

  /** The two-character escapes of section 7 of RFC 8259 that JSON.stringify uses, by their letter; 0 for none. */
  function ShortEscape(u: int): int {
    if u == 0x08 then 98 else if u == 0x09 then 116 else if u == 0x0A then 110 else if u == 0x0C then 102
    else if u == 0x0D then 114 else if u == 0x22 then 34 else if u == 0x5C then 92 else 0
  }

  /** One code unit that is not part of a surrogate pair. */
  function EscapeUnit(u: int): Text {
    if ShortEscape(u) != 0 then [92, ShortEscape(u)]
    else if 0 <= u < 0x20 || HighSurrogate(u) || LowSurrogate(u) then UnicodeEscape(u)
    else [u]
  }

  /** How many units the first escape of a nonempty text covers: two for a surrogate pair, else one. */
  function Width(s: Text): (n: nat)
    requires s != []
    ensures 1 <= n <= |s|
  {
    if |s| >= 2 && HighSurrogate(s[0]) && LowSurrogate(s[1]) then 2 else 1
  }

  function EscapeFirst(s: Text): (e: Text)
    requires s != []
    ensures e != []
  {
    if Width(s) == 2 then s[..2] else EscapeUnit(s[0])
  }

  // Every emitter writes its text in front of what follows it.

  function EmitEscaped(s: Text, rest: Text): Text
    decreases |s|
  {
    if s == [] then rest else EscapeFirst(s) + EmitEscaped(s[Width(s)..], rest)
  }

  function EmitString(s: Text, rest: Text): Text { [34] + EmitEscaped(s, [34] + rest) }

  function Decimal(n: nat): Text {
    if n < 10 then [48 + n] else Decimal(n / 10) + [48 + n % 10]
  }

  function EmitNumber(n: int, rest: Text): Text { if n < 0 then [45] + (Decimal(-n) + rest) else Decimal(n) + rest }

  function EmitItems(items: seq<Value>, rest: Text): Text
    decreases items, 0
  {
    if items == [] then rest
    else if |items| == 1 then Emit(items[0], rest)
    else Emit(items[0], [44] + EmitItems(items[1..], rest))
  }

  function EmitMembers(ms: Members, rest: Text): Text
    decreases ms, 0
  {
    if ms == [] then rest
    else EmitString(ms[0].key, [58] + Emit(ms[0].value, if |ms| == 1 then rest else [44] + EmitMembers(ms[1..], rest)))
  }

  /** `JSON.stringify` of a canonical value, followed by `rest`. */
  function Emit(v: Value, rest: Text): Text
    decreases v, 1
  {
    match v
    case Undefined => rest
    case Null => [110, 117, 108, 108] + rest
    case Boolean(b) => (if b then [116, 114, 117, 101] else [102, 97, 108, 115, 101]) + rest
    case Number(n) => EmitNumber(n, rest)
    case String(s) => EmitString(s, rest)
    case List(items) => [91] + EmitItems(items, [93] + rest)
    case Object(ms) => [123] + EmitMembers(ms, [125] + rest)
  }

  // ---------------------------------------------------------------- equal texts, equal heads

  lemma CancelHead(p: Text, q: Text, x: Text, y: Text)
    requires p + x == q + y && |p| == |q|
    ensures p == q && x == y
  {
    assert p == (p + x)[..|p|] && q == (q + y)[..|q|];
    assert x == (p + x)[|p|..] && y == (q + y)[|q|..];
  }

  lemma HeadAt(p: Text, x: Text, i: nat)
    requires i < |p|
    ensures (p + x)[i] == p[i]
  {
  }

  // ---------------------------------------------------------------- numbers

  predicate Digits(s: Text) { forall i :: 0 <= i < |s| ==> 48 <= s[i] <= 57 }

  predicate DigitNext(x: Text) { x != [] && 48 <= x[0] <= 57 }

  lemma {:induction false} DecimalDigits(n: nat)
    ensures Digits(Decimal(n)) && Decimal(n) != []
    decreases n
  {
    if n >= 10 { DecimalDigits(n / 10); }
  }

  lemma {:induction false} DecimalInjective(n: nat, m: nat)
    requires Decimal(n) == Decimal(m)
    ensures n == m
    decreases n
  {
    if n < 10 || m < 10 {
      if n >= 10 { DecimalDigits(n / 10); }
      if m >= 10 { DecimalDigits(m / 10); }
    } else {
      var a, b := Decimal(n), Decimal(m);
      assert a[..|a| - 1] == Decimal(n / 10) && b[..|b| - 1] == Decimal(m / 10);
      assert a[|a| - 1] == 48 + n % 10 && b[|b| - 1] == 48 + m % 10;
      DecimalInjective(n / 10, m / 10);
    }
  }

  /** If one run of digits is at least as long as another at the head of the same text, what follows the shorter is a
      digit. */
  lemma ShorterRun(s: Text, t: Text, x: Text, y: Text)
    requires Digits(t) && s + x == t + y && |s| < |t|
    ensures DigitNext(x)
  {
    HeadAt(t, y, |s|);
    assert (s + x)[|s|] == x[0];
  }

  lemma NumberInjective(n: int, m: int, x: Text, y: Text)
    requires !DigitNext(x) && !DigitNext(y) && EmitNumber(n, x) == EmitNumber(m, y)
    ensures n == m && x == y
  {
    var a, b := if n < 0 then -n else n, if m < 0 then -m else m;
    DecimalDigits(a);
    DecimalDigits(b);
    HeadAt(Decimal(a), x, 0);
    HeadAt(Decimal(b), y, 0);
    assert n < 0 <==> m < 0;
    if n < 0 { CancelHead([45], [45], Decimal(a) + x, Decimal(b) + y); }
    if |Decimal(a)| < |Decimal(b)| {
      ShorterRun(Decimal(a), Decimal(b), x, y);
    } else if |Decimal(b)| < |Decimal(a)| {
      ShorterRun(Decimal(b), Decimal(a), y, x);
    } else {
      CancelHead(Decimal(a), Decimal(b), x, y);
      DecimalInjective(a, b);
    }
  }

  // ---------------------------------------------------------------- reading strings back

  predicate IsHexUnit(u: int) { 48 <= u <= 57 || 65 <= u <= 70 || 97 <= u <= 102 }

  function HexUnitValue(u: int): int
    requires IsHexUnit(u)
  {
    if u <= 57 then u - 48 else if u <= 70 then u - 55 else u - 87
  }

  /** The unit a two-character escape of section 7 stands for, by its letter; None for any other letter. */
  function LongForm(letter: int): Option<int> {
    if letter in {0x22, 0x5C, 0x2F} then Some(letter)
    else if letter == 98 then Some(0x08) else if letter == 102 then Some(0x0C) else if letter == 110 then Some(0x0A)
    else if letter == 114 then Some(0x0D) else if letter == 116 then Some(0x09) else None
  }

  datatype ReadUnit = ReadUnit(unit: int, rest: Text)

  /** What follows a backslash. */
  function ReadEscape(t: Text): (r: Option<ReadUnit>)
    ensures r.Some? ==> |r.value.rest| < |t|
  {
    if t == [] then None
    else if t[0] == 117 then
      if |t| < 5 || !(IsHexUnit(t[1]) && IsHexUnit(t[2]) && IsHexUnit(t[3]) && IsHexUnit(t[4])) then None
      else
        var high, low := 16 * HexUnitValue(t[1]) + HexUnitValue(t[2]), 16 * HexUnitValue(t[3]) + HexUnitValue(t[4]);
        Some(ReadUnit(256 * high + low, t[5..]))
    else if LongForm(t[0]).None? then None
    else Some(ReadUnit(LongForm(t[0]).value, t[1..]))
  }

  /** One character of a string: an escape, or a raw unit that is neither a quote nor a control character. */
  function ReadOne(t: Text): (r: Option<ReadUnit>)
    ensures r.Some? ==> |r.value.rest| < |t|
  {
    if t == [] || t[0] < 0x20 || t[0] == 0x22 then None
    else if t[0] == 0x5C then ReadEscape(t[1..])
    else Some(ReadUnit(t[0], t[1..]))
  }

  datatype ReadText = ReadText(text: Text, rest: Text)

  /** A string by section 7 of RFC 8259, from after its opening quote: its text, and what follows its closing quote. */
  function ReadString(t: Text): Option<ReadText>
    decreases |t|
  {
    if t != [] && t[0] == 0x22 then Some(ReadText([], t[1..]))
    else
      var one := ReadOne(t);
      if one.None? then None
      else
        var more := ReadString(one.value.rest);
        if more.None? then None else Some(ReadText([one.value.unit] + more.value.text, more.value.rest))
  }

  lemma ReadUnicodeEscape(u: int, x: Text)
    requires 0 <= u < 0x10000
    ensures ReadOne(UnicodeEscape(u) + x) == Some(ReadUnit(u, x))
  {
    var e, t := UnicodeEscape(u), UnicodeEscape(u) + x;
    assert t[..6] == e && t[6..] == x && t[1..][5..] == x;
    assert t[1] == 117 && t[2] == e[2] && t[3] == e[3] && t[4] == e[4] && t[5] == e[5];
    NibblesOf(u);
  }

  lemma NibblesOf(u: int)
    requires 0 <= u < 0x10000
    ensures u == 256 * (16 * (u / 16 / 16 / 16) + u / 16 / 16 % 16) + (16 * (u / 16 % 16) + u % 16)
  {
    var a, b := u / 16, u / 16 / 16;
    assert u == 16 * a + u % 16 && a == 16 * b + a % 16 && b == 16 * (b / 16) + b % 16;
  }

  /** One escaped unit reads back as that unit. */
  lemma ReadEscapedUnit(u: int, x: Text)
    requires 0 <= u < 0x10000
    ensures ReadOne(EscapeUnit(u) + x) == Some(ReadUnit(u, x)) && EscapeUnit(u)[0] != 0x22
  {
    var e, t := EscapeUnit(u), EscapeUnit(u) + x;
    if |e| == 2 {
      assert t[0] == 92 && t[1..] == [ShortEscape(u)] + x && t[1..][1..] == x;
    } else if |e| == 6 {
      ReadUnicodeEscape(u, x);
    } else {
      assert t[1..] == x;
    }
  }

  lemma ReadRaw(u: int, x: Text)
    requires HighSurrogate(u) || LowSurrogate(u)
    ensures ReadOne([u] + x) == Some(ReadUnit(u, x))
  {
    assert ([u] + x)[1..] == x;
  }

  lemma ReadNext(t: Text, u: int, x: Text, s: Text, rest: Text)
    requires ReadOne(t) == Some(ReadUnit(u, x)) && t[0] != 0x22 && ReadString(x) == Some(ReadText(s, rest))
    ensures ReadString(t) == Some(ReadText([u] + s, rest))
  {
  }

  /** The first escape reads back as the units it covers. */
  lemma FirstReadsBack(s: Text, more: Text, rest: Text)
    requires IsText(s) && s != [] && ReadString(more) == Some(ReadText(s[Width(s)..], rest))
    ensures ReadString(EscapeFirst(s) + more) == Some(ReadText(s, rest))
  {
    if Width(s) == 2 {
      PairReadsBack(s[0], s[1], more, s[2..], rest);
      assert s[..2] == [s[0], s[1]] && s == [s[0], s[1]] + s[2..];
    } else {
      ReadEscapedUnit(s[0], more);
      ReadNext(EscapeUnit(s[0]) + more, s[0], more, s[1..], rest);
      assert s == [s[0]] + s[1..];
    }
  }

  lemma RawReadsBack(u: int, more: Text, s: Text, rest: Text)
    requires (HighSurrogate(u) || LowSurrogate(u)) && ReadString(more) == Some(ReadText(s, rest))
    ensures ReadString([u] + more) == Some(ReadText([u] + s, rest))
  {
    ReadRaw(u, more);
    ReadNext([u] + more, u, more, s, rest);
  }

  lemma TwoInFront(a: int, b: int, x: Text)
    ensures [a] + ([b] + x) == [a, b] + x
  {
  }

  lemma PairReadsBack(high: int, low: int, more: Text, s: Text, rest: Text)
    requires HighSurrogate(high) && LowSurrogate(low) && ReadString(more) == Some(ReadText(s, rest))
    ensures ReadString([high, low] + more) == Some(ReadText([high, low] + s, rest))
  {
    RawReadsBack(low, more, s, rest);
    RawReadsBack(high, [low] + more, [low] + s, rest);
    TwoInFront(high, low, more);
    TwoInFront(high, low, s);
  }

  /** What is written between quotes reads back as the text that was escaped, and reading stops at the closing quote. */
  lemma {:induction false} EscapedReadsBack(s: Text, x: Text)
    requires IsText(s)
    ensures ReadString(EmitEscaped(s, [34] + x)) == Some(ReadText(s, x))
    decreases |s|
  {
    if s == [] {
      assert ([34] + x)[1..] == x;
    } else {
      EscapedReadsBack(s[Width(s)..], x);
      FirstReadsBack(s, EmitEscaped(s[Width(s)..], [34] + x), x);
    }
  }

  /** A string is written between quotes, and by section 7 of RFC 8259 reads back as itself. */
  lemma StringReadsBack(s: Text, x: Text)
    requires IsText(s)
    ensures EmitString(s, x)[0] == 34 && ReadString(EmitString(s, x)[1..]) == Some(ReadText(s, x))
  {
    assert EmitString(s, x)[1..] == EmitEscaped(s, [34] + x);
    EscapedReadsBack(s, x);
  }

  lemma StringInjective(s: Text, t: Text, x: Text, y: Text)
    requires IsText(s) && IsText(t) && EmitString(s, x) == EmitString(t, y)
    ensures s == t && x == y
  {
    StringReadsBack(s, x);
    StringReadsBack(t, y);
  }

  // ---------------------------------------------------------------- values

  /** A value that can be printed: nothing in it is undefined. Its members may be in any order. */
  ghost predicate IsPlain(v: Value) {
    match v
    case Undefined => false
    case String(s) => IsText(s)
    case List(items) => forall x | x in items :: IsPlain(x)
    case Object(ms) => forall m | m in ms :: IsText(m.key) && IsPlain(m.value)
    case _ => true
  }

  /** What may follow a value: the end, a comma, or a closing bracket. */
  predicate Ends(x: Text) { x == [] || x[0] in {44, 93, 125} }

  /** The kind of a canonical value shows in its first code unit, which never ends another value. */
  function Kind(v: Value): int {
    match v
    case Undefined => 0
    case Null => 110
    case Boolean(b) => if b then 116 else 102
    case Number(_) => 45
    case String(_) => 34
    case List(_) => 91
    case Object(_) => 123
  }

  lemma FirstUnit(v: Value, rest: Text)
    requires IsPlain(v)
    ensures Emit(v, rest) != [] && !Ends(Emit(v, rest))
    ensures Kind(v) == if 48 <= Emit(v, rest)[0] <= 57 then 45 else Emit(v, rest)[0]
  {
    if v.Number? {
      var n := if v.n < 0 then -v.n else v.n;
      DecimalDigits(n);
      HeadAt(Decimal(n), rest, 0);
    }
  }

  lemma {:induction false} EmitInjective(a: Value, b: Value, x: Text, y: Text)
    requires IsPlain(a) && IsPlain(b) && Ends(x) && Ends(y) && Emit(a, x) == Emit(b, y)
    ensures a == b && x == y
    decreases a, 1
  {
    FirstUnit(a, x);
    FirstUnit(b, y);
    match a
    case Null => CancelHead([110, 117, 108, 108], [110, 117, 108, 108], x, y);
    case Boolean(v) =>
      var p := if v then [116, 114, 117, 101] else [102, 97, 108, 115, 101];
      CancelHead(p, p, x, y);
    case Number(n) => NumberInjective(n, b.n, x, y);
    case String(s) => StringInjective(s, b.s, x, y);
    case List(items) =>
      CancelHead([91], [91], EmitItems(items, [93] + x), EmitItems(b.items, [93] + y));
      ItemsInjective(items, b.items, x, y);
    case Object(ms) =>
      CancelHead([123], [123], EmitMembers(ms, [125] + x), EmitMembers(b.members, [125] + y));
      MembersInjective(ms, b.members, x, y);
  }

  lemma {:induction false} ItemsInjective(a: seq<Value>, b: seq<Value>, x: Text, y: Text)
    requires (forall v | v in a :: IsPlain(v)) && (forall v | v in b :: IsPlain(v))
    requires EmitItems(a, [93] + x) == EmitItems(b, [93] + y)
    ensures a == b && x == y
    decreases a, 0
  {
    if a == [] && b == [] {
      CancelHead([93], [93], x, y);
    } else if a == [] {
      FirstUnit(b[0], if |b| == 1 then [93] + y else [44] + EmitItems(b[1..], [93] + y));
    } else if b == [] {
      FirstUnit(a[0], if |a| == 1 then [93] + x else [44] + EmitItems(a[1..], [93] + x));
    } else {
      var x' := if |a| == 1 then [93] + x else [44] + EmitItems(a[1..], [93] + x);
      var y' := if |b| == 1 then [93] + y else [44] + EmitItems(b[1..], [93] + y);
      EmitInjective(a[0], b[0], x', y');
      assert a == [a[0]] + a[1..] && b == [b[0]] + b[1..];
      if |a| == 1 {
        assert |b| == 1 by { assert x'[0] == y'[0]; }
        CancelHead([93], [93], x, y);
      } else {
        assert |b| != 1 by { assert x'[0] == y'[0]; }
        CancelHead([44], [44], EmitItems(a[1..], [93] + x), EmitItems(b[1..], [93] + y));
        ItemsInjective(a[1..], b[1..], x, y);
      }
    }
  }

  /** What follows the first member of an object. */
  function MembersTail(ms: Members, rest: Text): Text
    requires ms != []
  {
    if |ms| == 1 then [125] + rest else [44] + EmitMembers(ms[1..], [125] + rest)
  }

  lemma FirstMemberInjective(a: Members, b: Members, x: Text, y: Text)
    requires a != [] && b != [] && IsText(a[0].key) && IsText(b[0].key)
    requires EmitMembers(a, [125] + x) == EmitMembers(b, [125] + y)
    ensures a[0].key == b[0].key
    ensures Emit(a[0].value, MembersTail(a, x)) == Emit(b[0].value, MembersTail(b, y))
  {
    var p, q := Emit(a[0].value, MembersTail(a, x)), Emit(b[0].value, MembersTail(b, y));
    StringInjective(a[0].key, b[0].key, [58] + p, [58] + q);
    CancelHead([58], [58], p, q);
  }

  lemma NonemptyMembersHead(ms: Members, rest: Text, x: Text)
    requires ms != []
    ensures EmitMembers(ms, rest) != [125] + x
  {
    var tail := if |ms| == 1 then rest else [44] + EmitMembers(ms[1..], rest);
    HeadAt([34], EmitEscaped(ms[0].key, [34] + ([58] + Emit(ms[0].value, tail))), 0);
    HeadAt([125], x, 0);
  }

  lemma {:induction false} MembersInjective(a: Members, b: Members, x: Text, y: Text)
    requires (forall m | m in a :: IsText(m.key) && IsPlain(m.value))
      && (forall m | m in b :: IsText(m.key) && IsPlain(m.value))
    requires EmitMembers(a, [125] + x) == EmitMembers(b, [125] + y)
    ensures a == b && x == y
    decreases a, 0
  {
    if a == [] && b == [] {
      CancelHead([125], [125], x, y);
    } else if a == [] {
      NonemptyMembersHead(b, [125] + y, x);
    } else if b == [] {
      NonemptyMembersHead(a, [125] + x, y);
    } else {
      FirstMemberInjective(a, b, x, y);
      EmitInjective(a[0].value, b[0].value, MembersTail(a, x), MembersTail(b, y));
      assert a == [a[0]] + a[1..] && b == [b[0]] + b[1..];
      assert MembersTail(a, x)[0] == MembersTail(b, y)[0];
      if |a| == 1 {
        CancelHead([125], [125], x, y);
      } else {
        CancelHead([44], [44], EmitMembers(a[1..], [125] + x), EmitMembers(b[1..], [125] + y));
        MembersInjective(a[1..], b[1..], x, y);
      }
    }
  }

  // ---------------------------------------------------------------- the order members are printed in

  function ArrangedItems(order: Members -> Members, items: seq<Value>): (r: seq<Value>)
    decreases items, 0
  {
    if items == [] then [] else [Arranged(order, items[0])] + ArrangedItems(order, items[1..])
  }

  function ArrangedMembers(order: Members -> Members, ms: Members): Members
    decreases ms, 0
  {
    if ms == [] then [] else [Keyed(ms[0].key, Arranged(order, ms[0].value))] + ArrangedMembers(order, ms[1..])
  }

  /** The value as an engine enumerates it: every object's members in the engine's order. */
  function Arranged(order: Members -> Members, v: Value): Value
    decreases v, 1
  {
    match v
    case List(items) => List(ArrangedItems(order, items))
    case Object(ms) => Object(order(ArrangedMembers(order, ms)))
    case _ => v
  }

  /** An enumeration order shows every member once. */
  ghost predicate Permutes(order: Members -> Members) { forall ms: Members :: multiset(order(ms)) == multiset(ms) }

  lemma {:induction false} ItemAt(order: Members -> Members, items: seq<Value>)
    ensures var r := ArrangedItems(order, items);
      |r| == |items| && forall i :: 0 <= i < |items| ==> r[i] == Arranged(order, items[i])
    decreases |items|
  {
    if items != [] { ItemAt(order, items[1..]); }
  }

  lemma {:induction false} MemberAt(order: Members -> Members, ms: Members)
    ensures var r := ArrangedMembers(order, ms);
      |r| == |ms| && forall i :: 0 <= i < |ms| ==> r[i] == Keyed(ms[i].key, Arranged(order, ms[i].value))
    decreases |ms|
  {
    if ms != [] { MemberAt(order, ms[1..]); }
  }

  lemma OrderKeepsMembers(order: Members -> Members, ms: Members, e: Keyed<Value>)
    requires Permutes(order)
    ensures e in order(ms) <==> e in ms
  {
    assert multiset(order(ms)) == multiset(ms);
    assert e in order(ms) <==> e in multiset(order(ms));
    assert e in ms <==> e in multiset(ms);
  }

  lemma {:induction false} ArrangedIsPlain(order: Members -> Members, v: Value)
    requires Permutes(order) && IsCanonical(v)
    ensures IsPlain(Arranged(order, v))
    decreases v
  {
    match v
    case List(items) =>
      ItemAt(order, items);
      forall i | 0 <= i < |items| ensures IsPlain(ArrangedItems(order, items)[i]) { ArrangedIsPlain(order, items[i]); }
    case Object(ms) =>
      MemberAt(order, ms);
      var out := ArrangedMembers(order, ms);
      forall e | e in order(out) ensures IsText(e.key) && IsPlain(e.value) {
        OrderKeepsMembers(order, out, e);
        var i :| 0 <= i < |out| && out[i] == e;
        ArrangedIsPlain(order, ms[i].value);
      }
    case _ =>
  }

  /** Whatever the order, it forgets nothing a canonical value does not already fix: its members ascend. */
  lemma {:induction false} ArrangedInjective(order: Members -> Members, a: Value, b: Value)
    requires Permutes(order) && IsCanonical(a) && IsCanonical(b) && Arranged(order, a) == Arranged(order, b)
    ensures a == b
    decreases a
  {
    match a
    case List(items) =>
      ItemAt(order, items);
      ItemAt(order, b.items);
      forall i | 0 <= i < |items| ensures items[i] == b.items[i] {
        assert Arranged(order, items[i]) == ArrangedItems(order, items)[i];
        ArrangedInjective(order, items[i], b.items[i]);
      }
    case Object(ms) =>
      SameMembers(order, ms, b.members);
      forall i | 0 <= i < |ms| ensures ms[i] == b.members[i] {
        assert ms[i] in ms && b.members[i] in b.members;
        ArrangedInjective(order, ms[i].value, b.members[i].value);
      }
    case _ =>
  }

  lemma SameMembers(order: Members -> Members, ms: Members, ns: Members)
    requires Permutes(order) && Ascending(ms) && Ascending(ns)
    requires order(ArrangedMembers(order, ms)) == order(ArrangedMembers(order, ns))
    ensures |ms| == |ns|
    ensures forall i :: 0 <= i < |ms| ==>
      ms[i].key == ns[i].key && Arranged(order, ms[i].value) == Arranged(order, ns[i].value)
  {
    var A, B := ArrangedMembers(order, ms), ArrangedMembers(order, ns);
    MemberAt(order, ms);
    MemberAt(order, ns);
    forall e ensures e in A <==> e in B { OrderKeepsMembers(order, A, e); OrderKeepsMembers(order, B, e); }
    AscendingUnique(A, B);
    forall i | 0 <= i < |ms|
      ensures ms[i].key == ns[i].key && Arranged(order, ms[i].value) == Arranged(order, ns[i].value)
    {
      assert A[i] == B[i];
    }
  }

  // ---------------------------------------------------------------- the engine's order

  /** The number a digit string names. */
  function NumberOf(s: Text): nat
    requires Digits(s)
  {
    if s == [] then 0 else 10 * NumberOf(s[..|s| - 1]) + (s[|s| - 1] - 48)
  }

  /** The key of an array element: a numeral without leading zeros, up to 2^32 - 2. */
  predicate IsIndex(key: Text) {
    1 <= |key| <= 10 && Digits(key) && (key[0] == 48 ==> |key| == 1) && NumberOf(key) <= 4_294_967_294
  }

  function Rank(key: Text): nat { if IsIndex(key) then NumberOf(key) else 0 }

  function InsertIndex(m: Keyed<Value>, ms: Members): Members {
    if ms == [] || Rank(m.key) <= Rank(ms[0].key) then [m] + ms else [ms[0]] + InsertIndex(m, ms[1..])
  }

  /** The members with array keys, by number. */
  function Indices(ms: Members): Members {
    if ms == [] then [] else if IsIndex(ms[0].key) then InsertIndex(ms[0], Indices(ms[1..])) else Indices(ms[1..])
  }

  /** The other members, in creation order. */
  function Names(ms: Members): Members {
    if ms == [] then [] else if IsIndex(ms[0].key) then Names(ms[1..]) else [ms[0]] + Names(ms[1..])
  }

  /** How ECMAScript enumerates own string keys: array keys first, by number, then the others as they were created. */
  function EngineOrder(ms: Members): Members { Indices(ms) + Names(ms) }

  lemma {:induction false} InsertIndexPermutes(m: Keyed<Value>, ms: Members)
    ensures multiset(InsertIndex(m, ms)) == multiset(ms) + multiset{m}
    decreases |ms|
  {
    if ms != [] && Rank(m.key) > Rank(ms[0].key) {
      InsertIndexPermutes(m, ms[1..]);
      assert ms == [ms[0]] + ms[1..];
    }
  }

  lemma {:induction false} PartsPermute(ms: Members)
    ensures multiset(Indices(ms)) + multiset(Names(ms)) == multiset(ms)
    decreases |ms|
  {
    if ms != [] {
      PartsPermute(ms[1..]);
      assert ms == [ms[0]] + ms[1..];
      if IsIndex(ms[0].key) { InsertIndexPermutes(ms[0], Indices(ms[1..])); }
    }
  }

  lemma EngineOrderPermutes()
    ensures Permutes(EngineOrder)
  {
    forall ms: Members ensures multiset(EngineOrder(ms)) == multiset(ms) { PartsPermute(ms); }
  }

  ghost predicate ByNumber(ms: Members) {
    (forall i :: 0 <= i < |ms| ==> IsIndex(ms[i].key)) &&
    forall i, j :: 0 <= i < j < |ms| ==> NumberOf(ms[i].key) <= NumberOf(ms[j].key)
  }

  lemma InFront(m: Keyed<Value>, rest: Members)
    requires IsIndex(m.key) && ByNumber(rest)
      && forall i :: 0 <= i < |rest| ==> NumberOf(m.key) <= NumberOf(rest[i].key)
    ensures ByNumber([m] + rest)
  {
  }

  lemma {:induction false} InsertIndexOrders(m: Keyed<Value>, ms: Members)
    requires IsIndex(m.key) && ByNumber(ms)
    ensures ByNumber(InsertIndex(m, ms))
    decreases |ms|
  {
    if ms == [] || Rank(m.key) <= Rank(ms[0].key) {
      InFront(m, ms);
    } else {
      var rest := InsertIndex(m, ms[1..]);
      InsertIndexOrders(m, ms[1..]);
      InsertIndexPermutes(m, ms[1..]);
      forall i | 0 <= i < |rest| ensures NumberOf(ms[0].key) <= NumberOf(rest[i].key) {
        assert rest[i] in multiset(rest);
        assert rest[i] == m || rest[i] in ms[1..];
      }
      InFront(ms[0], rest);
    }
  }

  /** The array keys do come first and ascend as numbers; no later member has one. */
  lemma {:induction false} EngineOrderIs(ms: Members)
    ensures ByNumber(Indices(ms)) && forall i :: 0 <= i < |Names(ms)| ==> !IsIndex(Names(ms)[i].key)
    decreases |ms|
  {
    if ms != [] {
      EngineOrderIs(ms[1..]);
      if IsIndex(ms[0].key) { InsertIndexOrders(ms[0], Indices(ms[1..])); }
    }
  }

  // ---------------------------------------------------------------- canonicalJson

  /** The text of a value whose members an engine enumerates in some order. */
  function CanonicalTextIn(order: Members -> Members, v: Value): Result<Text> {
    var c :- Canonical(v);
    Ok(Emit(Arranged(order, c), []))
  }

  /** `canonicalJson`. */
  function CanonicalText(v: Value): Result<Text> { CanonicalTextIn(EngineOrder, v) }

  /** In whatever order members are enumerated, two values serialise to the same text exactly when they are the same
      value after dropping undefined members and ignoring member order. */
  lemma CanonicalTextInInjective(order: Members -> Members, a: Value, b: Value)
    requires Permutes(order) && WellFormed(a) && WellFormed(b) && Canonical(a).Ok? && Canonical(b).Ok?
    ensures CanonicalTextIn(order, a) == CanonicalTextIn(order, b) <==> Equivalent(a, b)
  {
    var c, d := Canonical(a).value, Canonical(b).value;
    CanonicalEqualIffEquivalent(a, b);
    CanonicalIsCanonical(a);
    CanonicalIsCanonical(b);
    if CanonicalTextIn(order, a) == CanonicalTextIn(order, b) {
      ArrangedIsPlain(order, c);
      ArrangedIsPlain(order, d);
      EmitInjective(Arranged(order, c), Arranged(order, d), [], []);
      ArrangedInjective(order, c, d);
    }
  }

  /** The same for the text an engine prints. */
  lemma CanonicalJsonInjective(a: Value, b: Value)
    requires WellFormed(a) && WellFormed(b) && Canonical(a).Ok? && Canonical(b).Ok?
    ensures CanonicalText(a) == CanonicalText(b) <==> Equivalent(a, b)
  {
    EngineOrderPermutes();
    CanonicalTextInInjective(EngineOrder, a, b);
  }

  // ---------------------------------------------------------------- the bytes that are hashed

  /** Every surrogate is part of a pair, so that the UTF-8 encoding of the text loses nothing. */
  predicate Paired(x: Text) {
    x == [] ||
    (if HighSurrogate(x[0]) then |x| >= 2 && LowSurrogate(x[1]) && Paired(x[2..])
      else !LowSurrogate(x[0]) && Paired(x[1..]))
  }

  lemma {:induction false} PlainBefore(p: Text, rest: Text)
    requires Paired(rest) && forall i :: 0 <= i < |p| ==> p[i] < 0xD800
    ensures Paired(p + rest)
    decreases |p|
  {
    if p == [] {
      assert p + rest == rest;
    } else {
      PlainBefore(p[1..], rest);
      assert (p + rest)[1..] == p[1..] + rest;
    }
  }

  lemma {:induction false} EscapedIsPaired(s: Text, rest: Text)
    requires IsText(s) && Paired(rest)
    ensures Paired(EmitEscaped(s, rest))
    decreases |s|
  {
    if s != [] {
      var more := EmitEscaped(s[Width(s)..], rest);
      EscapedIsPaired(s[Width(s)..], rest);
      if Width(s) == 2 {
        assert (s[..2] + more)[2..] == more;
      } else if EscapeUnit(s[0]) == [s[0]] {
        assert ([s[0]] + more)[1..] == more;
      } else {
        PlainBefore(EscapeUnit(s[0]), more);
      }
    }
  }

  lemma StringIsPaired(s: Text, rest: Text)
    requires IsText(s) && Paired(rest)
    ensures Paired(EmitString(s, rest))
  {
    PlainBefore([34], rest);
    EscapedIsPaired(s, [34] + rest);
    PlainBefore([34], EmitEscaped(s, [34] + rest));
  }

  lemma {:induction false} ItemsArePaired(items: seq<Value>, rest: Text)
    requires Paired(rest) && forall x | x in items :: IsPlain(x)
    ensures Paired(EmitItems(items, rest))
    decreases items, 0
  {
    if |items| == 1 {
      EmitIsPaired(items[0], rest);
    } else if |items| > 1 {
      ItemsArePaired(items[1..], rest);
      PlainBefore([44], EmitItems(items[1..], rest));
      EmitIsPaired(items[0], [44] + EmitItems(items[1..], rest));
    }
  }

  lemma {:induction false} MembersArePaired(ms: Members, rest: Text)
    requires Paired(rest) && forall m | m in ms :: IsText(m.key) && IsPlain(m.value)
    ensures Paired(EmitMembers(ms, rest))
    decreases ms, 0
  {
    if ms != [] {
      MembersArePaired(ms[1..], rest);
      PlainBefore([44], EmitMembers(ms[1..], rest));
      var tail := if |ms| == 1 then rest else [44] + EmitMembers(ms[1..], rest);
      EmitIsPaired(ms[0].value, tail);
      PlainBefore([58], Emit(ms[0].value, tail));
      StringIsPaired(ms[0].key, [58] + Emit(ms[0].value, tail));
    }
  }

  lemma {:induction false} EmitIsPaired(v: Value, rest: Text)
    requires IsPlain(v) && Paired(rest)
    ensures Paired(Emit(v, rest))
    decreases v, 1
  {
    match v
    case Null => PlainBefore([110, 117, 108, 108], rest);
    case Boolean(b) => PlainBefore(if b then [116, 114, 117, 101] else [102, 97, 108, 115, 101], rest);
    case Number(n) =>
      var digits := Decimal(if n < 0 then -n else n);
      DecimalDigits(if n < 0 then -n else n);
      PlainBefore(digits, rest);
      PlainBefore([45], digits + rest);
    case String(s) => StringIsPaired(s, rest);
    case List(items) =>
      PlainBefore([93], rest);
      ItemsArePaired(items, [93] + rest);
      PlainBefore([91], EmitItems(items, [93] + rest));
    case Object(ms) =>
      PlainBefore([125], rest);
      MembersArePaired(ms, [125] + rest);
      PlainBefore([123], EmitMembers(ms, [125] + rest));
  }

  /** The canonical text is well-formed UTF-16, whatever unpaired surrogates the value's strings hold. */
  lemma CanonicalTextIsPaired(v: Value)
    requires WellFormed(v) && Canonical(v).Ok?
    ensures Paired(CanonicalText(v).value)
  {
    CanonicalIsCanonical(v);
    EngineOrderPermutes();
    ArrangedIsPlain(EngineOrder, Canonical(v).value);
    EmitIsPaired(Arranged(EngineOrder, Canonical(v).value), []);
  }
}
