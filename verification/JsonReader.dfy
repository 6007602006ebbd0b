/** The text behind every digest is JSON: a reader by RFC 8259 gets the value back. */
module JsonReader {
  import opened Basics
  import opened CodeUnitOrder
  import opened CanonicalJson
  import opened JsonText

  // ---------------------------------------------------------------- a reader by sections 2 to 7 of RFC 8259

  /** The code units of an ASCII text. */
  function Ascii(s: string): (t: Text)
    ensures |t| == |s| && forall i :: 0 <= i < |s| ==> t[i] == s[i] as int
  {
    seq(|s|, i requires 0 <= i < |s| => s[i] as int)
  }

  predicate Starts(t: Text, s: string) { |s| <= |t| && forall i :: 0 <= i < |s| ==> t[i] == s[i] as int }

  datatype ReadValue = ReadValue(value: Value, rest: Text)
  datatype ReadMany<T> = ReadMany(items: seq<T>, rest: Text)

  /** The length of the run of digits a text begins with. */
  function DigitRun(t: Text): (n: nat)
    ensures n <= |t| && (forall i :: 0 <= i < n ==> 48 <= t[i] <= 57) && (n < |t| ==> !(48 <= t[n] <= 57))
  {
    if !DigitNext(t) then 0 else 1 + DigitRun(t[1..])
  }

  /** An integer: digits without a leading zero, which may follow a minus sign. */
  function ReadInteger(t: Text): (r: Option<ReadValue>)
    ensures r.Some? ==> |r.value.rest| < |t|
  {
    var negative := Starts(t, "-");
    var body := if negative then t[1..] else t;
    var n := DigitRun(body);
    if n == 0 || (n > 1 && Starts(body, "0")) then None
    else
      var magnitude: int := NumberOf(body[..n]);
      Some(ReadValue(Number(if negative then -magnitude else magnitude), body[n..]))
  }

  function Read(t: Text): (r: Option<ReadValue>)
    ensures r.Some? ==> |r.value.rest| < |t|
    decreases |t|, 0
  {
    if Starts(t, "null") then Some(ReadValue(Null, t[4..]))
    else if Starts(t, "true") then Some(ReadValue(Boolean(true), t[4..]))
    else if Starts(t, "false") then Some(ReadValue(Boolean(false), t[5..]))
    else if Starts(t, "\"") then
      var s := ReadString(t[1..]);
      if s.None? || |s.value.rest| >= |t| then None else Some(ReadValue(String(s.value.text), s.value.rest))
    else if Starts(t, "[]") then Some(ReadValue(List([]), t[2..]))
    else if Starts(t, "[") then
      var items := ReadItems(t[1..]);
      if items.None? then None else Some(ReadValue(List(items.value.items), items.value.rest))
    else if Starts(t, "{}") then Some(ReadValue(Object([]), t[2..]))
    else if Starts(t, "{") then
      var members := ReadMembers(t[1..]);
      if members.None? then None else Some(ReadValue(Object(members.value.items), members.value.rest))
    else ReadInteger(t)
  }

  /** Values between commas, up to the closing bracket. */
  function ReadItems(t: Text): (r: Option<ReadMany<Value>>)
    ensures r.Some? ==> |r.value.rest| < |t|
    decreases |t|, 1
  {
    var first := Read(t);
    if first.None? then None
    else if Starts(first.value.rest, "]") then Some(ReadMany([first.value.value], first.value.rest[1..]))
    else if !Starts(first.value.rest, ",") then None
    else
      var more := ReadItems(first.value.rest[1..]);
      if more.None? then None else Some(ReadMany([first.value.value] + more.value.items, more.value.rest))
  }

  /** Names and values between commas, up to the closing brace. */
  function ReadMembers(t: Text): (r: Option<ReadMany<Keyed<Value>>>)
    ensures r.Some? ==> |r.value.rest| < |t|
    decreases |t|, 1
  {
    if !Starts(t, "\"") then None
    else
      var name := ReadString(t[1..]);
      if name.None? || |name.value.rest| >= |t| || !Starts(name.value.rest, ":") then None
      else
        var value := Read(name.value.rest[1..]);
        if value.None? then None
        else
          var first := Keyed(name.value.text, value.value.value);
          if Starts(value.value.rest, "}") then Some(ReadMany([first], value.value.rest[1..]))
          else if !Starts(value.value.rest, ",") then None
          else
            var more := ReadMembers(value.value.rest[1..]);
            if more.None? then None else Some(ReadMany([first] + more.value.items, more.value.rest))
  }

  // ---------------------------------------------------------------- numbers

  /** A numeral names its number, and has no leading zero. */
  lemma {:induction false} DecimalNames(n: nat)
    ensures Digits(Decimal(n)) && Decimal(n) != [] && NumberOf(Decimal(n)) == n
    ensures Decimal(n)[0] == 48 <==> n == 0
    ensures Decimal(n)[0] == 48 ==> |Decimal(n)| == 1
    decreases n
  {
    var s := Decimal(n);
    if n >= 10 {
      DecimalNames(n / 10);
      assert s[..|s| - 1] == Decimal(n / 10) && s[|s| - 1] == 48 + n % 10;
    } else {
      assert s[..0] == [] && NumberOf(s[..0]) == 0;
    }
  }

  lemma {:induction false} RunOfDigits(s: Text, x: Text)
    requires Digits(s) && !DigitNext(x)
    ensures DigitRun(s + x) == |s|
    decreases |s|
  {
    if s == [] {
      assert s + x == x;
    } else {
      assert (s + x)[1..] == s[1..] + x;
      RunOfDigits(s[1..], x);
    }
  }

  lemma StartsUnit(t: Text, s: string)
    requires |s| == 1
    ensures Starts(t, s) <==> t != [] && t[0] == s[0] as int
  {
  }

  lemma IntegerReadsBack(n: int, x: Text)
    requires !DigitNext(x)
    ensures ReadInteger(EmitNumber(n, x)) == Some(ReadValue(Number(n), x))
  {
    var t, a := EmitNumber(n, x), if n < 0 then -n else n;
    var body := Decimal(a) + x;
    DecimalNames(a);
    RunOfDigits(Decimal(a), x);
    StartsUnit(t, "-");
    StartsUnit(body, "0");
    HeadAt(Decimal(a), x, 0);
    if n < 0 { assert t[1..] == body; }
    assert body[..|Decimal(a)|] == Decimal(a) && body[|Decimal(a)|..] == x;
  }

  // ---------------------------------------------------------------- every value

  /** The first unit of a text decides what the reader looks for. */
  lemma StartsBy(t: Text, s: string)
    requires s != "" && (t == [] || t[0] != s[0] as int)
    ensures !Starts(t, s)
  {
  }

  lemma WordStarts(s: string, x: Text)
    ensures Starts(Ascii(s) + x, s) && (Ascii(s) + x)[|s|..] == x
  {
  }

  lemma ReadWord(v: Value, x: Text)
    requires v.Null? || v.Boolean?
    ensures Read(Emit(v, x)) == Some(ReadValue(v, x))
  {
    var s := if v.Null? then "null" else if v.b then "true" else "false";
    var t := Emit(v, x);
    assert t == Ascii(s) + x by {
      assert Ascii("null") == [110, 117, 108, 108];
      assert Ascii("true") == [116, 114, 117, 101];
      assert Ascii("false") == [102, 97, 108, 115, 101];
    }
    WordStarts(s, x);
    HeadAt(Ascii(s), x, 0);
    if s != "null" { StartsBy(t, "null"); }
    if s == "false" { StartsBy(t, "true"); }
  }

  /** A text that begins with none of the words, and how its first unit is read. */
  lemma NoWord(t: Text)
    requires t != [] && t[0] !in {110, 116, 102}
    ensures !Starts(t, "null") && !Starts(t, "true") && !Starts(t, "false")
  {
    StartsBy(t, "null");
    StartsBy(t, "true");
    StartsBy(t, "false");
  }

  lemma ReadNumber(n: int, x: Text)
    requires !DigitNext(x)
    ensures Read(EmitNumber(n, x)) == Some(ReadValue(Number(n), x))
  {
    var t, a := EmitNumber(n, x), if n < 0 then -n else n;
    DecimalNames(a);
    HeadAt(Decimal(a), x, 0);
    NoWord(t);
    StartsUnit(t, "\"");
    StartsBy(t, "[]");
    StartsUnit(t, "[");
    StartsBy(t, "{}");
    StartsUnit(t, "{");
    IntegerReadsBack(n, x);
  }

  lemma ReadQuoted(s: Text, x: Text)
    requires IsText(s)
    ensures Read(EmitString(s, x)) == Some(ReadValue(String(s), x))
  {
    var t := EmitString(s, x);
    StringReadsBack(s, x);
    NoWord(t);
    StartsUnit(t, "\"");
    ReadShortens(t[1..]);
  }

  lemma {:induction false} ReadShortens(t: Text)
    ensures ReadString(t).Some? ==> |ReadString(t).value.rest| < |t|
    decreases |t|
  {
    if ReadString(t).Some? && t[0] != 0x22 { ReadShortens(ReadOne(t).value.rest); }
  }

  /** What is written after a value begins with what may follow it. */
  lemma ReadList(t: Text, items: seq<Value>, x: Text)
    requires t != [] && t[0] != 93 && ReadItems(t) == Some(ReadMany(items, x))
    ensures Read([91] + t) == Some(ReadValue(List(items), x))
  {
    var all := [91] + t;
    NoWord(all);
    StartsUnit(all, "\"");
    StartsUnit(all, "[");
    assert all[1..] == t;
  }

  lemma ReadObject(t: Text, ms: Members, x: Text)
    requires t != [] && t[0] != 125 && ReadMembers(t) == Some(ReadMany(ms, x))
    ensures Read([123] + t) == Some(ReadValue(Object(ms), x))
  {
    var all := [123] + t;
    NoWord(all);
    StartsUnit(all, "\"");
    StartsBy(all, "[]");
    StartsUnit(all, "[");
    StartsUnit(all, "{");
    assert all[1..] == t;
  }

  lemma ReadEmpty(x: Text)
    ensures Read([91] + ([93] + x)) == Some(ReadValue(List([]), x))
    ensures Read([123] + ([125] + x)) == Some(ReadValue(Object([]), x))
  {
    var list, object' := [91] + ([93] + x), [123] + ([125] + x);
    NoWord(list);
    NoWord(object');
    StartsUnit(list, "\"");
    StartsUnit(object', "\"");
    assert list == Ascii("[]") + x && object' == Ascii("{}") + x;
    WordStarts("[]", x);
    WordStarts("{}", x);
    StartsBy(object', "[]");
    StartsUnit(object', "[");
  }

  /** Whatever is printed, followed by the end, a comma or a closing bracket, is read back as it was. */
  lemma {:induction false} ReadsBack(v: Value, x: Text)
    requires IsPlain(v) && Ends(x)
    ensures Read(Emit(v, x)) == Some(ReadValue(v, x))
    decreases v, 1
  {
    match v
    case Null => ReadWord(v, x);
    case Boolean(_) => ReadWord(v, x);
    case Number(n) => ReadNumber(n, x);
    case String(s) => ReadQuoted(s, x);
    case List(items) =>
      if items == [] {
        ReadEmpty(x);
      } else {
        ItemsReadBack(items, x);
        FirstUnit(items[0], if |items| == 1 then [93] + x else [44] + EmitItems(items[1..], [93] + x));
        ReadList(EmitItems(items, [93] + x), items, x);
      }
    case Object(ms) =>
      if ms == [] {
        ReadEmpty(x);
      } else {
        MembersReadBack(ms, x);
        ReadObject(EmitMembers(ms, [125] + x), ms, x);
      }
  }

  lemma {:induction false} ItemsReadBack(items: seq<Value>, x: Text)
    requires items != [] && forall v | v in items :: IsPlain(v)
    ensures ReadItems(EmitItems(items, [93] + x)) == Some(ReadMany(items, x))
    decreases items, 0
  {
    var more := EmitItems(items[1..], [93] + x);
    var tail := if |items| == 1 then [93] + x else [44] + more;
    ReadsBack(items[0], tail);
    assert items == [items[0]] + items[1..];
    if |items| == 1 {
      LastItem(EmitItems(items, [93] + x), items[0], x);
      assert items == [items[0]];
    } else {
      ItemsReadBack(items[1..], x);
      OneMoreItem(EmitItems(items, [93] + x), items[0], more, items[1..], x);
    }
  }

  lemma LastItem(t: Text, v: Value, x: Text)
    requires Read(t) == Some(ReadValue(v, [93] + x))
    ensures ReadItems(t) == Some(ReadMany([v], x))
  {
    StartsUnit([93] + x, "]");
    assert ([93] + x)[1..] == x;
  }

  lemma OneMoreItem(t: Text, v: Value, more: Text, items: seq<Value>, x: Text)
    requires Read(t) == Some(ReadValue(v, [44] + more)) && ReadItems(more) == Some(ReadMany(items, x))
    ensures ReadItems(t) == Some(ReadMany([v] + items, x))
  {
    StartsUnit([44] + more, "]");
    StartsUnit([44] + more, ",");
    assert ([44] + more)[1..] == more;
  }

  lemma {:induction false} MembersReadBack(ms: Members, x: Text)
    requires ms != [] && forall m | m in ms :: IsText(m.key) && IsPlain(m.value)
    ensures ReadMembers(EmitMembers(ms, [125] + x)) == Some(ReadMany(ms, x))
    ensures EmitMembers(ms, [125] + x) != [] && EmitMembers(ms, [125] + x)[0] == 34
    decreases ms, 0
  {
    var tail := MembersTail(ms, x);
    ReadsBack(ms[0].value, tail);
    if |ms| > 1 { MembersReadBack(ms[1..], x); }
    FirstMemberReadsBack(ms, x, tail);
  }

  lemma FirstMemberReadsBack(ms: Members, x: Text, tail: Text)
    requires ms != [] && IsText(ms[0].key) && tail == MembersTail(ms, x)
    requires Read(Emit(ms[0].value, tail)) == Some(ReadValue(ms[0].value, tail))
    requires |ms| > 1 ==> ReadMembers(EmitMembers(ms[1..], [125] + x)) == Some(ReadMany(ms[1..], x))
    ensures ReadMembers(EmitMembers(ms, [125] + x)) == Some(ReadMany(ms, x))
    ensures EmitMembers(ms, [125] + x) != [] && EmitMembers(ms, [125] + x)[0] == 34
  {
    var t, after := EmitMembers(ms, [125] + x), [58] + Emit(ms[0].value, tail);
    assert t == EmitString(ms[0].key, after);
    StringReadsBack(ms[0].key, after);
    ReadShortens(t[1..]);
    StartsUnit(t, "\"");
    StartsUnit(after, ":");
    assert after[1..] == Emit(ms[0].value, tail);
    StartsUnit(tail, "}");
    StartsUnit(tail, ",");
    assert ms == [Keyed(ms[0].key, ms[0].value)] + ms[1..];
    if |ms| == 1 {
      assert ms == [ms[0]] && tail[1..] == x;
    } else {
      assert tail[1..] == EmitMembers(ms[1..], [125] + x);
    }
  }

  // ---------------------------------------------------------------- which of the possible escapes are printed

  /** The halves of a surrogate pair: the ten-bit groups 0x36 and 0x37 of 1,024 units each. */
  lemma SurrogateMeaning(u: int)
    ensures HighSurrogate(u) <==> u / 1024 == 0x36
    ensures LowSurrogate(u) <==> u / 1024 == 0x37
  {
  }

  lemma HexDigitMeaning(d: int)
    requires 0 <= d < 16
    ensures HexDigit(d) == "0123456789abcdef"[d] as int
  {
  }

  /** One unit on its own is printed as a short escape where JSON.stringify has one, as `\u` and four lower-case
      hexadecimal digits if it is another control unit or a lone surrogate, and otherwise as it is. */
  lemma EscapeTable(u: int)
    requires 0 <= u < 0x10000
    ensures EscapeUnit(u) ==
      if u == 8 then Ascii("\\b") else if u == 9 then Ascii("\\t") else if u == 10 then Ascii("\\n")
      else if u == 12 then Ascii("\\f") else if u == 13 then Ascii("\\r")
      else if u == '"' as int then Ascii("\\\"") else if u == '\\' as int then Ascii("\\\\")
      else if u < 32 || 0x36 <= u / 1024 <= 0x37 then
        var digits := "0123456789abcdef";
        Ascii("\\u" + [digits[u / 4096], digits[u / 256 % 16], digits[u / 16 % 16], digits[u % 16]])
      else [u]
  {
    SurrogateMeaning(u);
    if ShortEscape(u) != 0 { ShortTable(u); } else { UnicodeTable(u); }
  }

  lemma UnicodeTable(u: int)
    requires 0 <= u < 0x10000
    ensures var digits := "0123456789abcdef";
      UnicodeEscape(u) == Ascii("\\u" + [digits[u / 4096], digits[u / 256 % 16], digits[u / 16 % 16], digits[u % 16]])
  {
    assert u / 16 / 16 / 16 == u / 4096 && u / 16 / 16 == u / 256;
    HexDigitMeaning(u / 4096);
    HexDigitMeaning(u / 256 % 16);
    HexDigitMeaning(u / 16 % 16);
    HexDigitMeaning(u % 16);
  }

  lemma ShortTable(u: int)
    ensures u == 8 ==> EscapeUnit(u) == Ascii("\\b")
    ensures u == 9 ==> EscapeUnit(u) == Ascii("\\t")
    ensures u == 10 ==> EscapeUnit(u) == Ascii("\\n")
    ensures u == 12 ==> EscapeUnit(u) == Ascii("\\f")
    ensures u == 13 ==> EscapeUnit(u) == Ascii("\\r")
    ensures u == '"' as int ==> EscapeUnit(u) == Ascii("\\\"")
    ensures u == '\\' as int ==> EscapeUnit(u) == Ascii("\\\\")
    ensures ShortEscape(u) != 0 <==> u in {8, 9, 10, 12, 13, '"' as int, '\\' as int}
  {
  }

  /** A text is printed unit by unit, except that the two halves of a surrogate pair stay together as they are. */
  lemma PairStaysRaw(s: Text, rest: Text)
    requires s != []
    ensures EmitEscaped(s, rest) ==
      if |s| >= 2 && s[0] / 1024 == 0x36 && s[1] / 1024 == 0x37 then [s[0], s[1]] + EmitEscaped(s[2..], rest)
      else EscapeUnit(s[0]) + EmitEscaped(s[1..], rest)
  {
    SurrogateMeaning(s[0]);
    if |s| >= 2 {
      SurrogateMeaning(s[1]);
      assert s[..2] == [s[0], s[1]];
    }
  }

  // ---------------------------------------------------------------- canonicalJson, end to end

  /** A value serialises exactly when every number in it is a safe integer and no list holds an undefined item. */
  ghost predicate Serialisable(v: Value) {
    match v
    case Undefined => false
    case Number(n) => -9_007_199_254_740_991 <= n <= 9_007_199_254_740_991
    case List(items) => forall x | x in items :: Serialisable(x)
    case Object(ms) => forall m | m in ms :: m.value.Undefined? || Serialisable(m.value)
    case _ => true
  }

  lemma {:induction false} CanonicalIffSerialisable(v: Value)
    ensures Canonical(v).Ok? <==> Serialisable(v)
    decreases v
  {
    match v
    case List(items) =>
      ItemsRefused(items);
      forall x | x in items ensures Canonical(x).Ok? <==> Serialisable(x) { CanonicalIffSerialisable(x); }
    case Object(ms) =>
      MembersRefused(ms);
      forall m | m in ms ensures Canonical(m.value).Ok? <==> Serialisable(m.value) {
        CanonicalIffSerialisable(m.value);
      }
    case _ =>
  }

  lemma {:induction false} ItemsRefused(items: seq<Value>)
    ensures CanonicalItems(items).Err? <==> exists x :: x in items && Canonical(x).Err?
    decreases |items|
  {
    if items != [] {
      assert forall x :: x in items <==> x == items[0] || x in items[1..];
      ItemsRefused(items[1..]);
      if Canonical(items[0]).Err? { assert items[0] in items; }
    }
  }

  /** What is hashed is JSON that says what the value says: it reads back, whole, as the same value once undefined
      members are dropped, with every object's members in the engine's order. */
  lemma CanonicalTextReadsBack(v: Value)
    requires WellFormed(v)
    ensures CanonicalText(v).Ok? <==> Serialisable(v)
    ensures Serialisable(v) ==>
      var c := Canonical(v).value;
      && IsCanonical(c) && Equivalent(v, c)
      && Read(CanonicalText(v).value) == Some(ReadValue(Arranged(EngineOrder, c), []))
  {
    CanonicalIffSerialisable(v);
    if Serialisable(v) {
      var c := Canonical(v).value;
      CanonicalIsCanonical(v);
      CanonicalIdempotent(v);
      CanonicalIsWellFormed(c);
      CanonicalEqualIffEquivalent(v, c);
      EngineOrderPermutes();
      ArrangedIsPlain(EngineOrder, c);
      ReadsBack(Arranged(EngineOrder, c), []);
    }
  }

  lemma {:induction false} CanonicalIsWellFormed(v: Value)
    requires IsCanonical(v)
    ensures WellFormed(v)
    decreases v
  {
    match v
    case List(items) => forall x | x in items ensures WellFormed(x) { CanonicalIsWellFormed(x); }
    case Object(ms) =>
      AscendingDistinct(ms);
      forall m | m in ms ensures IsText(m.key) && WellFormed(m.value) { CanonicalIsWellFormed(m.value); }
    case _ =>
  }

  // ---------------------------------------------------------------- the engine's order of a canonical object

  /** Array keys are the numerals of 0 to 2^32 - 2. */
  lemma IndexMeaning(key: Text)
    ensures IsIndex(key) <==> exists n: nat :: n <= 0xFFFF_FFFE && key == Decimal(n)
  {
    if IsIndex(key) {
      NumeralOf(key);
    }
    if exists n: nat :: n <= 0xFFFF_FFFE && key == Decimal(n) {
      var n: nat :| n <= 0xFFFF_FFFE && key == Decimal(n);
      DecimalNames(n);
      DecimalLength(n, 10);
    }
  }

  lemma {:induction false} NumeralOf(key: Text)
    requires Digits(key) && key != [] && (key[0] == 48 ==> |key| == 1)
    ensures Decimal(NumberOf(key)) == key
    decreases |key|
  {
    var init := key[..|key| - 1];
    if init != [] {
      NumeralOf(init);
      DecimalNames(NumberOf(init));
      assert key == init + [key[|key| - 1]];
    } else {
      assert NumberOf(init) == 0 && key == [key[0]];
    }
  }

  function Power(k: nat): nat { if k == 0 then 1 else 10 * Power(k - 1) }

  lemma {:induction false} DecimalLength(n: nat, k: nat)
    requires k > 0 && n < Power(k)
    ensures |Decimal(n)| <= k
    decreases k
  {
    if n >= 10 {
      assert Power(k) == 10 * Power(k - 1) && Power(0) == 1;
      DecimalLength(n / 10, k - 1);
    }
  }

  /** Of a canonical object the engine prints the array keys by number and then the other names in ascending order. */
  lemma {:induction false} NamesAscend(ms: Members)
    requires Ascending(ms)
    ensures Ascending(Names(ms)) && forall m :: m in Names(ms) <==> m in ms && !IsIndex(m.key)
    decreases |ms|
  {
    if ms != [] {
      assert ms == [ms[0]] + ms[1..];
      NamesAscend(ms[1..]);
      if !IsIndex(ms[0].key) {
        forall i | 0 <= i < |Names(ms[1..])| ensures Less(ms[0].key, Names(ms[1..])[i].key) {
          assert Names(ms[1..])[i] in ms[1..];
        }
      }
    }
  }
}
