/** The printed handoff line: POSIX quoting of an argument list, and the shell's own reading of it. */
module ShellQuoting {
  import opened Basics

  // ---------------------------------------------------------------- cli-handoff.ts

  predicate IsControl(c: char) { c <= '\U{1f}' || c == '\U{7f}' }

  predicate HasControl(s: string) { exists i :: 0 <= i < |s| && IsControl(s[i]) }

  predicate IsSafeChar(c: char) { IsAlphanumeric(c) || c in "_@%+=:,./-" }

  predicate IsSafe(s: string) { s != "" && forall i :: 0 <= i < |s| ==> IsSafeChar(s[i]) }

  /** Each single quote closes the quotes, is itself double-quoted, and reopens them. */
  function EscapeQuotes(s: string): string {
    if s == "" then "" else (if s[0] == '\'' then "'\"'\"'" else [s[0]]) + EscapeQuotes(s[1..])
  }

  function RenderPosixArgument(s: string): string { if IsSafe(s) then s else "'" + EscapeQuotes(s) + "'" }

  function Join(words: seq<string>): string {
    if words == [] then "" else RenderPosixArgument(words[0]) + if |words| == 1 then "" else " " + Join(words[1..])
  }

  /** `createCliHandoff`: the one line to print for an argument list. */
  function CreateCliHandoff(input: seq<string>): Result<string> {
    if input == [] || input[0] == "" then Err(Internal)
    else if exists i :: 0 <= i < |input| && HasControl(input[i]) then Err(InvalidInput)
    else Ok(Join(input))
  }

  // ---------------------------------------------------------------- the shell's token recognition

  /** Characters that, unquoted, would end a word as an operator, start a comment, or be expanded. */
  predicate IsSpecial(c: char) { IsControl(c) || c in "|&;<>()$`#*?[]~{}!^" }

  predicate IsBlank(c: char) { c == ' ' || c == '\t' }

  datatype Mode = Between | Word(text: string) | Single(text: string) | Double(text: string)

  /** Splitting a line into words: sections 2.2.1 to 2.2.3 and 2.3 of the POSIX.1-2017 Shell Command Language. None is
      an unterminated quote, an operator, a comment or an expansion: a line that is more than a list of literal
      words. */
  function Words(line: string, mode: Mode): Option<seq<string>>
    decreases |line|, 0
  {
    if line == "" then
      match mode
      case Between => Some([])
      case Word(w) => Some([w])
      case _ => None
    else
      var c, rest := line[0], line[1..];
      match mode
      case Between =>
        if IsBlank(c) then Words(rest, Between) else Unquoted("", c, rest)
      case Word(w) =>
        if IsBlank(c) then
          var more := Words(rest, Between);
          if more.Some? then Some([w] + more.value) else None
        else Unquoted(w, c, rest)
      case Single(w) =>
        if c == '\'' then Words(rest, Word(w)) else Words(rest, Single(w + [c]))
      case Double(w) =>
        if c == '"' then Words(rest, Word(w))
        else if c in "$`" then None
        else if c == '\\' && rest != "" && rest[0] in "$`\"\\" then Words(rest[1..], Double(w + [rest[0]]))
        else Words(rest, Double(w + [c]))
  }

  /** An unquoted character inside or at the start of a word. */
  function Unquoted(w: string, c: char, rest: string): Option<seq<string>>
    decreases |rest|, 1
  {
    if c == '\'' then Words(rest, Single(w))
    else if c == '"' then Words(rest, Double(w))
    else if c == '\\' then if rest == "" then None else Words(rest[1..], Word(w + [rest[0]]))
    else if IsSpecial(c) then None
    else Words(rest, Word(w + [c]))
  }

  /** The reading is strict: an unquoted operator, comment, expansion or control character makes a line more than a list
      of words, and so does an expansion inside double quotes or an open quote at its end. */
  lemma WordsAreStrict(w: string, c: char, rest: string)
    ensures c in "|&;<>()$`#*?[]~{}!^" || (c as int < 32 && c != '\t') || c as int == 127 ==>
      Words([c] + rest, Between).None? && Words([c] + rest, Word(w)).None?
    ensures c in "$`" ==> Words([c] + rest, Double(w)).None?
    ensures Words("", Between) == Some([]) && Words("", Word(w)) == Some([w])
    ensures Words("", Single(w)).None? && Words("", Double(w)).None? && Words("\\", Word(w)).None?
  {
    Cons(c, rest);
    Cons('\\', "");
    assert "\\" == ['\\'] + "";
  }

  // ---------------------------------------------------------------- the shell reads back what was written

  lemma Cons(c: char, s: string)
    ensures ([c] + s)[0] == c && ([c] + s)[1..] == s
  {
  }

  predicate IsPlain(c: char) { !IsBlank(c) && !IsSpecial(c) && c != '\'' && c != '"' && c != '\\' }

  lemma SafeIsPlain(c: char)
    requires IsSafeChar(c)
    ensures IsPlain(c)
  {
  }

  lemma PlainReads(w: string, c: char, rest: string)
    requires IsPlain(c)
    ensures Words([c] + rest, Word(w)) == Words(rest, Word(w + [c]))
    ensures Words([c] + rest, Between) == Words(rest, Word([c]))
  {
    Cons(c, rest);
    assert "" + [c] == [c];
  }

  /** A safe word goes on unquoted. */
  lemma {:induction false} PlainWordReads(w: string, s: string, rest: string)
    requires forall i :: 0 <= i < |s| ==> IsPlain(s[i])
    ensures Words(s + rest, Word(w)) == Words(rest, Word(w + s))
    decreases |s|
  {
    if s == "" {
      assert s + rest == rest && w + s == w;
    } else {
      assert s + rest == [s[0]] + (s[1..] + rest);
      PlainReads(w, s[0], s[1..] + rest);
      PlainWordReads(w + [s[0]], s[1..], rest);
      assert w + s == w + [s[0]] + s[1..];
    }
  }

  /** One embedded quote: close, double-quote, reopen. */
  lemma QuoteReads(w: string, rest: string)
    ensures Words("'\"'\"'" + rest, Single(w)) == Words(rest, Single(w + "'"))
  {
    assert "'\"'\"'" + rest == ['\''] + ("\"'\"'" + rest);
    assert "\"'\"'" + rest == ['"'] + ("'\"'" + rest);
    assert "'\"'" + rest == ['\''] + ("\"'" + rest);
    assert "\"'" + rest == ['"'] + ("'" + rest);
    calc {
      Words("'\"'\"'" + rest, Single(w));
      Words("\"'\"'" + rest, Word(w));
      Words("'\"'" + rest, Double(w));
      Words("\"'" + rest, Double(w + ['\'']));
      Words("'" + rest, Word(w + ['\'']));
      Words(rest, Single(w + ['\'']));
    }
  }

  /** Inside single quotes everything is literal. */
  lemma {:induction false} EscapedReads(w: string, s: string, rest: string)
    ensures Words(EscapeQuotes(s) + rest, Single(w)) == Words(rest, Single(w + s))
    decreases |s|
  {
    if s == "" {
      assert EscapeQuotes(s) + rest == rest && w + s == w;
    } else {
      var tail := EscapeQuotes(s[1..]) + rest;
      EscapedReads(w + [s[0]], s[1..], rest);
      assert w + [s[0]] + s[1..] == w + s;
      if s[0] == '\'' {
        assert EscapeQuotes(s) + rest == "'\"'\"'" + tail;
        QuoteReads(w, tail);
      } else {
        assert EscapeQuotes(s) + rest == [s[0]] + tail;
        Cons(s[0], tail);
      }
    }
  }

  lemma PlainWordStarts(s: string, rest: string)
    requires s != "" && forall i :: 0 <= i < |s| ==> IsPlain(s[i])
    ensures Words(s + rest, Between) == Words(rest, Word(s))
  {
    assert s + rest == [s[0]] + (s[1..] + rest);
    PlainReads("", s[0], s[1..] + rest);
    PlainWordReads([s[0]], s[1..], rest);
    assert [s[0]] + s[1..] == s;
  }

  lemma SafeStarts(s: string, rest: string)
    requires IsSafe(s)
    ensures Words(s + rest, Between) == Words(rest, Word(s))
  {
    forall i | 0 <= i < |s| ensures IsPlain(s[i]) { SafeIsPlain(s[i]); }
    PlainWordStarts(s, rest);
  }

  lemma QuotedStarts(s: string, rest: string)
    ensures Words("'" + EscapeQuotes(s) + "'" + rest, Between) == Words(rest, Word(s))
  {
    var close := "'" + rest;
    var body := EscapeQuotes(s) + close;
    assert "'" + EscapeQuotes(s) + "'" + rest == ['\''] + body;
    Cons('\'', body);
    assert Words(['\''] + body, Between) == Words(body, Single(""));
    EscapedReads("", s, close);
    assert "" + s == s;
    assert close == ['\''] + rest;
    Cons('\'', rest);
  }

  /** A rendered argument, wherever it stands, is read as one word holding exactly the argument. */
  lemma RenderedReads(s: string, rest: string)
    ensures Words(RenderPosixArgument(s) + rest, Between) == Words(rest, Word(s))
  {
    if IsSafe(s) { SafeStarts(s, rest); } else { QuotedStarts(s, rest); }
  }

  lemma {:induction false} JoinReads(words: seq<string>)
    requires words != []
    ensures Words(Join(words), Between) == Some(words)
    decreases |words|
  {
    if |words| == 1 {
      RenderedReads(words[0], "");
      assert RenderPosixArgument(words[0]) + "" == Join(words);
      assert Words("", Word(words[0])) == Some([words[0]]) && words == [words[0]];
    } else {
      var rest := " " + Join(words[1..]);
      RenderedReads(words[0], rest);
      assert RenderPosixArgument(words[0]) + rest == Join(words);
      Cons(' ', Join(words[1..]));
      JoinReads(words[1..]);
      assert [words[0]] + words[1..] == words;
    }
  }

  /** An argument is printed as it is exactly when it is a word of letters, digits and the safe punctuation. */
  lemma PrintedBare(s: string)
    ensures RenderPosixArgument(s) == s <==>
      s != "" && forall i :: 0 <= i < |s| ==>
        'a' <= s[i] <= 'z' || 'A' <= s[i] <= 'Z' || '0' <= s[i] <= '9' || s[i] in "_@%+=:,./-"
  {
    EscapesOnlyGrow(s);
  }

  lemma {:induction false} EscapesOnlyGrow(s: string)
    ensures |EscapeQuotes(s)| >= |s|
    decreases |s|
  {
    if s != "" { EscapesOnlyGrow(s[1..]); }
  }

  /** The printed line is read back by a POSIX shell as exactly the argument list, with nothing to expand or run; it is
      refused exactly for an empty list, an empty command, or a control character anywhere. */
  lemma HandoffReadsBack(input: seq<string>)
    ensures CreateCliHandoff(input).Ok? <==>
      && input != [] && input[0] != ""
      && forall i, j :: 0 <= i < |input| && 0 <= j < |input[i]| ==> 32 <= input[i][j] as int != 127
    ensures CreateCliHandoff(input).Ok? ==> Words(CreateCliHandoff(input).value, Between) == Some(input)
  {
    forall i | 0 <= i < |input|
      ensures HasControl(input[i]) <==> exists j :: 0 <= j < |input[i]| && !(32 <= input[i][j] as int != 127)
    {
      ControlMeaning(input[i]);
    }
    if input != [] { JoinReads(input); }
  }

  lemma ControlMeaning(s: string)
    ensures HasControl(s) <==> exists j :: 0 <= j < |s| && !(32 <= s[j] as int != 127)
  {
    forall j | 0 <= j < |s| ensures IsControl(s[j]) <==> !(32 <= s[j] as int != 127) { }
  }

  /** Two argument lists print the same line only when they are the same list. */
  lemma HandoffInjective(a: seq<string>, b: seq<string>)
    requires CreateCliHandoff(a).Ok? && CreateCliHandoff(a) == CreateCliHandoff(b)
    ensures a == b
  {
    HandoffReadsBack(a);
    HandoffReadsBack(b);
  }
}
