/** Shell quoting, and the tokeniser that must undo it. Characters are bytes. */
module ShellText {
  import opened Basics

  // ----- quoting -----

  const QUOTED_QUOTE := "'\\''"

  /** As strings.ReplaceAll(s, "'", `'\''`). */
  function Escaped(s: string): string {
    if s == "" then "" else EscapedChar(s[0]) + Escaped(s[1..])
  }

  function EscapedChar(c: char): string { if c == '\'' then QUOTED_QUOTE else [c] }

  function ShellQuote(s: string): string { "'" + Escaped(s) + "'" }

  // ----- tokens -----

  predicate Joins(c: char) { c == '\\' || c == '^' || c == '`' }

  predicate Newline(c: char) { c == '\n' || c == '\r' }

  predicate Blank(c: char) { c == ' ' || c == '\t' || Newline(c) }

  predicate Stops(c: char) { c == ';' || c == '&' || c == '|' }

  predicate Doubles(c: char) { c == '&' || c == '|' }

  predicate Escapable(c: char) { c == '"' || c == '\\' || c == '$' || c == '`' }

  datatype Info = Info(unterminated: bool, stoppedAt: string, expansion: bool)

  const NO_INFO := Info(false, "", false)

  /** open says a token is in progress, even the empty ''. */
  datatype State = State(out: seq<string>, cur: string, open: bool, info: Info) {
    function Push(): State { if open then State(out + [cur], "", false, info) else this }

    function Write(text: string): State { this.(cur := cur + text, open := true) }

    function Expanding(e: bool): State { this.(info := info.(expansion := info.expansion || e)) }

    function Closing(closed: bool): State { this.(info := info.(unterminated := info.unterminated || !closed)) }
  }

  const START := State([], "", false, NO_INFO)

  /** Whether the $ at the front is followed by what a shell would substitute. */
  predicate Expands(rest: string)
    requires rest != ""
  {
    |rest| > 1 && (rest[1] == '(' || rest[1] == '{' || rest[1] == '_' || 'A' <= rest[1] <= 'Z' || 'a' <= rest[1] <= 'z')
  }

  /** Where the next single quote is, or the end. */
  function QuoteAt(s: string): (j: nat)
    ensures j <= |s| && '\'' !in s[..j] && (j < |s| ==> s[j] == '\'')
  {
    if s == "" || s[0] == '\'' then 0 else 1 + QuoteAt(s[1..])
  }

  /** Where $'…' ends: at a quote no backslash precedes, or the end. */
  function AnsiEnd(s: string): (j: nat)
    ensures j <= |s|
  {
    if s == "" || s[0] == '\'' then 0
    else if s[0] == '\\' && |s| > 1 then 2 + AnsiEnd(s[2..])
    else 1 + AnsiEnd(s[1..])
  }

  datatype Scan = Scan(after: string, text: string, expansion: bool, closed: bool)

  /** Inside double quotes: text is what was read, after what follows the closing quote. */
  function InDouble(rest: string, text: string, expansion: bool): (r: Scan)
    ensures |r.after| <= |rest|
  {
    if rest == "" then Scan("", text, expansion, false)
    else if rest[0] == '"' then Scan(rest[1..], text, expansion, true)
    else if rest[0] == '\\' && |rest| > 1 && Escapable(rest[1]) then InDouble(rest[2..], text + [rest[1]], expansion)
    else if rest[0] == '\\' && |rest| > 1 && rest[1] == '\n' then InDouble(rest[2..], text, expansion)
    else
      InDouble(rest[1..], text + [rest[0]],
               expansion || (rest[0] == '$' && Expands(rest)) || rest[0] == '`')
  }

  /** What follows position j of s, which may be one past the end. */
  function After(s: string, j: nat): string { if j < |s| then s[j+1..] else "" }

  predicate Continuation(rest: string) {
    |rest| > 1 && Joins(rest[0]) && Newline(rest[1])
  }

  /** shellSplit from the front of rest on; ansi is ansiCDecode. */
  function Tokens(ansi: string -> string, rest: string, st: State): (seq<string>, Info)
    decreases |rest|
  {
    if rest == "" then (st.Push().out, st.info)
    else if Continuation(rest) then Tokens(ansi, rest[2..], st)
    else if rest[0] == '\\' && |rest| > 1 then Tokens(ansi, rest[2..], st.Write([rest[1]]))
    else if rest[0] == '$' && |rest| > 1 && rest[1] == '\'' then
      var j := AnsiEnd(rest[2..]);
      Tokens(ansi, After(rest[2..], j), st.Write(ansi(rest[2..][..j])).Closing(j < |rest| - 2))
    else if rest[0] == '\'' then
      var j := QuoteAt(rest[1..]);
      Tokens(ansi, After(rest[1..], j), st.Write(rest[1..][..j]).Closing(j < |rest| - 1))
    else if rest[0] == '"' then
      var scan := InDouble(rest[1..], "", false);
      Tokens(ansi, scan.after, st.Write(scan.text).Expanding(scan.expansion).Closing(scan.closed))
    else if Stops(rest[0]) then
      (st.Push().out, st.info.(stoppedAt := if |rest| > 1 && Doubles(rest[1]) then rest[..2] else rest[..1]))
    else if Blank(rest[0]) then Tokens(ansi, rest[1..], st.Push())
    else
      Tokens(ansi, rest[1..], st.Write([rest[0]]).Expanding((rest[0] == '$' && Expands(rest)) || rest[0] == '`'))
  }

  // ----- the tokeniser's loops -----

  lemma SliceGrows(s: string, i: nat, j: nat)
    requires i <= j < |s|
    ensures s[i..j+1] == s[i..j] + [s[j]]
  {
  }

  lemma QuoteStep(s: string, j: nat)
    requires j < |s|
    ensures QuoteAt(s[j..]) == if s[j] == '\'' then 0 else 1 + QuoteAt(s[j+1..])
  {
    assert s[j..][1..] == s[j+1..];
  }

  method SingleQuoted(s: string, i: nat) returns (text: string, j: nat)
    requires i < |s|
    ensures j == i + 1 + QuoteAt(s[i+1..]) && text == s[i+1..j]
  {
    hide QuoteAt;
    text, j := "", i + 1;
    while j < |s| && s[j] != '\''
      invariant i + 1 <= j <= |s| && text == s[i+1..j]
      invariant QuoteAt(s[i+1..]) == j - i - 1 + QuoteAt(s[j..])
    {
      QuoteStep(s, j);
      SliceGrows(s, i + 1, j);
      text := text + [s[j]];
      j := j + 1;
    }
    if j < |s| {
      QuoteStep(s, j);
    }
  }

  lemma AnsiStep(s: string, j: nat)
    requires j < |s|
    ensures AnsiEnd(s[j..]) ==
      if s[j] == '\'' then 0
      else if s[j] == '\\' && j + 1 < |s| then 2 + AnsiEnd(s[j+2..])
      else 1 + AnsiEnd(s[j+1..])
  {
    assert s[j..][1..] == s[j+1..];
    assert j + 1 < |s| ==> s[j..][2..] == s[j+2..];
  }

  lemma EndOfText(s: string)
    ensures AnsiEnd(s[|s|..]) == 0
    ensures forall text, expansion :: InDouble(s[|s|..], text, expansion) == Scan("", text, expansion, false)
  {
  }

  method AnsiQuoted(s: string, i: nat) returns (raw: string, j: nat)
    requires i + 1 < |s|
    ensures j == i + 2 + AnsiEnd(s[i+2..]) && raw == s[i+2..j]
  {
    hide AnsiEnd;
    raw, j := "", i + 2;
    while j < |s| && s[j] != '\''
      invariant i + 2 <= j <= |s| && raw == s[i+2..j]
      invariant AnsiEnd(s[i+2..]) == j - i - 2 + AnsiEnd(s[j..])
    {
      AnsiStep(s, j);
      SliceGrows(s, i + 2, j);
      if s[j] == '\\' && j + 1 < |s| {
        SliceGrows(s, i + 2, j + 1);
        raw := raw + [s[j]];
        raw := raw + [s[j+1]];
        j := j + 2;
      } else {
        raw := raw + [s[j]];
        j := j + 1;
      }
    }
    if j < |s| {
      AnsiStep(s, j);
    }
    EndOfText(s);
  }

  lemma DoubleStep(s: string, j: nat, text: string, expansion: bool)
    requires j < |s|
    ensures InDouble(s[j..], text, expansion) ==
      if s[j] == '"' then Scan(s[j+1..], text, expansion, true)
      else if s[j] == '\\' && j + 1 < |s| && Escapable(s[j+1]) then InDouble(s[j+2..], text + [s[j+1]], expansion)
      else if s[j] == '\\' && j + 1 < |s| && s[j+1] == '\n' then InDouble(s[j+2..], text, expansion)
      else InDouble(s[j+1..], text + [s[j]], expansion || (s[j] == '$' && Expands(s[j..])) || s[j] == '`')
  {
    hide Expands;
    var rest := s[j..];
    assert rest[0] == s[j] && rest[1..] == s[j+1..];
    if |rest| > 1 {
      assert rest[1] == s[j+1] && rest[2..] == s[j+2..];
    }
  }

  method DoubleQuoted(s: string, i: nat) returns (text: string, expansion: bool, j: nat)
    requires i < |s|
    ensures i < j <= |s|
    ensures InDouble(s[i+1..], "", false) == Scan(After(s, j), text, expansion, j < |s|)
  {
    hide InDouble, Expands;
    text, expansion, j := "", false, i + 1;
    while j < |s| && s[j] != '"'
      invariant i + 1 <= j <= |s|
      invariant InDouble(s[i+1..], "", false) == InDouble(s[j..], text, expansion)
    {
      DoubleStep(s, j, text, expansion);
      if s[j] == '\\' && j + 1 < |s| && Escapable(s[j+1]) {
        text := text + [s[j+1]];
        j := j + 2;
      } else if s[j] == '\\' && j + 1 < |s| && s[j+1] == '\n' {
        j := j + 2;
      } else {
        if s[j] == '$' && Expands(s[j..]) {
          expansion := true;
        }
        if s[j] == '`' {
          expansion := true;
        }
        text := text + [s[j]];
        j := j + 1;
      }
    }
    if j < |s| {
      DoubleStep(s, j, text, expansion);
    }
    EndOfText(s);
  }

  /** The tokeniser's turn on a character outside quotes, in terms of the whole text. */
  lemma StepBare(ansi: string -> string, s: string, i: nat, st: State)
    requires i < |s|
    ensures Continuation(s[i..]) ==> Tokens(ansi, s[i..], st) == Tokens(ansi, s[i+2..], st)
    ensures !Continuation(s[i..]) && s[i] == '\\' && i + 1 < |s| ==>
      Tokens(ansi, s[i..], st) == Tokens(ansi, s[i+2..], st.Write([s[i+1]]))
    ensures Stops(s[i]) ==>
      Tokens(ansi, s[i..], st) ==
      (st.Push().out, st.info.(stoppedAt := if i + 1 < |s| && Doubles(s[i+1]) then s[i..i+2] else s[i..i+1]))
    ensures Blank(s[i]) ==> Tokens(ansi, s[i..], st) == Tokens(ansi, s[i+1..], st.Push())
    ensures Plain(s, i) ==>
      Tokens(ansi, s[i..], st) ==
      Tokens(ansi, s[i+1..], st.Write([s[i]]).Expanding((s[i] == '$' && Expands(s[i..])) || s[i] == '`'))
  {
    hide Expands, State.Write, State.Push, State.Closing, State.Expanding;
    var rest := s[i..];
    assert rest[0] == s[i] && rest[1..] == s[i+1..] && rest[..1] == s[i..i+1];
    if |rest| > 1 {
      assert rest[1] == s[i+1] && rest[2..] == s[i+2..] && rest[..2] == s[i..i+2];
    }
  }

  predicate Plain(s: string, i: nat)
    requires i < |s|
  {
    && !Continuation(s[i..]) && !(s[i] == '\\' && i + 1 < |s|) && !(s[i] == '$' && i + 1 < |s| && s[i+1] == '\'')
    && s[i] != '\'' && s[i] != '"' && !Stops(s[i]) && !Blank(s[i])
  }

  /** Past a quoted run that ends at j. */
  function Past(s: string, j: nat): nat { if j < |s| then j + 1 else j }

  lemma StepAnsi(ansi: string -> string, s: string, i: nat, st: State, j: nat)
    requires i + 1 < |s| && s[i] == '$' && s[i+1] == '\'' && j == i + 2 + AnsiEnd(s[i+2..])
    ensures Tokens(ansi, s[i..], st) == Tokens(ansi, s[Past(s, j)..], st.Write(ansi(s[i+2..j])).Closing(j < |s|))
  {
    hide AnsiEnd, State.Write, State.Push, State.Closing, State.Expanding;
    var rest := s[i..];
    assert rest[0] == '$' && rest[1] == '\'' && rest[2..] == s[i+2..];
    assert s[i+2..][..j-i-2] == s[i+2..j] && After(s[i+2..], j - i - 2) == s[Past(s, j)..];
  }

  lemma StepSingle(ansi: string -> string, s: string, i: nat, st: State, j: nat)
    requires i < |s| && s[i] == '\'' && j == i + 1 + QuoteAt(s[i+1..])
    ensures Tokens(ansi, s[i..], st) == Tokens(ansi, s[Past(s, j)..], st.Write(s[i+1..j]).Closing(j < |s|))
  {
    hide QuoteAt, State.Write, State.Push, State.Closing, State.Expanding;
    var rest := s[i..];
    assert rest[0] == '\'' && rest[1..] == s[i+1..];
    assert s[i+1..][..j-i-1] == s[i+1..j] && After(s[i+1..], j - i - 1) == s[Past(s, j)..];
  }

  lemma StepDouble(ansi: string -> string, s: string, i: nat, st: State, text: string, expansion: bool, j: nat)
    requires i < |s| && s[i] == '"' && j <= |s|
    requires InDouble(s[i+1..], "", false) == Scan(After(s, j), text, expansion, j < |s|)
    ensures Tokens(ansi, s[i..], st)
      == Tokens(ansi, s[Past(s, j)..], st.Write(text).Expanding(expansion).Closing(j < |s|))
  {
    hide InDouble, State.Write, State.Push, State.Closing, State.Expanding;
    var rest := s[i..];
    assert rest[0] == '"' && rest[1..] == s[i+1..];
    assert After(s, j) == s[Past(s, j)..];
  }

  lemma NeedsTwo(rest: string)
    ensures Continuation(rest) <==> |rest| > 1 && Joins(rest[0]) && Newline(rest[1])
  {
  }

  lemma TokensEnd(ansi: string -> string, s: string, st: State)
    ensures Tokens(ansi, s[|s|..], st) == (st.Push().out, st.info)
  {
  }

  method ShellSplit(ansi: string -> string, s: string) returns (out: seq<string>, info: Info)
    ensures (out, info) == Tokens(ansi, s, START)
  {
    hide Tokens, InDouble, QuoteAt, AnsiEnd, Expands, Continuation;
    hide State.Write, State.Push, State.Closing, State.Expanding, Joins, Newline, Blank, Stops, Doubles;
    var st := START;
    var i := 0;
    assert s[0..] == s;
    while i < |s|
      invariant 0 <= i <= |s|
      invariant Tokens(ansi, s, START) == Tokens(ansi, s[i..], st)
      decreases |s| - i
    {
      var c := s[i];
      StepBare(ansi, s, i, st);
      NeedsTwo(s[i..]);
      if Joins(c) && i + 1 < |s| && Newline(s[i+1]) {
        i := i + 2;
      } else if c == '\\' && i + 1 < |s| {
        st := st.Write([s[i+1]]);
        i := i + 2;
      } else if c == '$' && i + 1 < |s| && s[i+1] == '\'' {
        var raw, j := AnsiQuoted(s, i);
        StepAnsi(ansi, s, i, st, j);
        st := st.Write(ansi(raw)).Closing(j < |s|);
        i := Past(s, j);
      } else if c == '\'' {
        var text, j := SingleQuoted(s, i);
        StepSingle(ansi, s, i, st, j);
        st := st.Write(text).Closing(j < |s|);
        i := Past(s, j);
      } else if c == '"' {
        var text, expansion, j := DoubleQuoted(s, i);
        StepDouble(ansi, s, i, st, text, expansion, j);
        st := st.Write(text).Expanding(expansion).Closing(j < |s|);
        i := Past(s, j);
      } else if Stops(c) {
        var stop := [c];
        if i + 1 < |s| && Doubles(s[i+1]) {
          stop := stop + [s[i+1]];
          assert stop == s[i..i+2];
        }
        assert [c] == s[i..i+1];
        return st.Push().out, st.info.(stoppedAt := stop);
      } else if Blank(c) {
        st := st.Push();
        i := i + 1;
      } else {
        st := st.Write([c]).Expanding((c == '$' && Expands(s[i..])) || c == '`');
        i := i + 1;
      }
    }
    TokensEnd(ansi, s, st);
    return st.Push().out, st.info;
  }

  // ----- what is quoted comes back -----

  /** No character of a bare word means anything to the tokeniser. */
  predicate Safe(c: char) {
    !Joins(c) && !Blank(c) && !Stops(c) && c != '$' && c != '\'' && c != '"'
  }

  /** The characters that do mean something. */
  lemma SafeIff(c: char)
    ensures Safe(c) <==>
            c !in ['\\', '^', '`', ' ', '\t', '\n', '\r', ';', '&', '|', '$', '\'', '"']
  {
  }

  /** An operator ends the command, and a doubled one is named whole. */
  lemma OperatorEnds(ansi: string -> string, c: char, rest: string, st: State)
    requires c in [';', '&', '|']
    ensures var stop := if rest != "" && rest[0] in ['&', '|'] then [c, rest[0]] else [c];
      Tokens(ansi, [c] + rest, st) ==
      (if st.open then st.out + [st.cur] else st.out, Info(st.info.unterminated, stop, st.info.expansion))
  {
    var s := [c] + rest;
    assert s[0] == c && s[1..] == rest && s[..1] == [c];
    if rest != "" {
      assert s[1] == rest[0] && s[..2] == [c, rest[0]];
    }
  }

  /** Blanks end a token, empty or not, if one is in progress. */
  lemma BlankEnds(ansi: string -> string, c: char, rest: string, st: State)
    requires c in [' ', '\t', '\n', '\r']
    ensures Tokens(ansi, [c] + rest, st) ==
            Tokens(ansi, rest, if st.open then State(st.out + [st.cur], "", false, st.info) else st)
  {
    assert ([c] + rest)[0] == c && ([c] + rest)[1..] == rest;
  }

  /** A line goes on after a backslash, a caret or a backtick at its end. */
  lemma LineGoesOn(ansi: string -> string, c: char, nl: char, rest: string, st: State)
    requires c in ['\\', '^', '`'] && nl in ['\n', '\r']
    ensures Tokens(ansi, [c, nl] + rest, st) == Tokens(ansi, rest, st)
  {
    var s := [c, nl] + rest;
    assert s[0] == c && s[1] == nl && s[2..] == rest;
  }

  /** Between double quotes a backslash escapes four characters and stands for itself before any other but a newline. */
  lemma DoubleEscapes(c: char, rest: string, text: string, expansion: bool)
    ensures InDouble(['\\', c] + rest, text, expansion) ==
            if c in ['"', '\\', '$', '`'] then InDouble(rest, text + [c], expansion)
            else if c == '\n' then InDouble(rest, text, expansion)
            else InDouble([c] + rest, text + ['\\'], expansion)
  {
    var s := ['\\', c] + rest;
    assert s[0] == '\\' && s[1] == c && s[2..] == rest && s[1..] == [c] + rest;
  }

  /** A '$' before a name, a brace or a parenthesis is what a shell would expand. */
  lemma ExpansionNoticed(ansi: string -> string, c: char, rest: string, st: State)
    requires 'A' <= c <= 'Z' || 'a' <= c <= 'z' || c in ['(', '{', '_']
    ensures Tokens(ansi, ['$', c] + rest, st) ==
            Tokens(ansi, [c] + rest, State(st.out, st.cur + "$", true, st.info.(expansion := true)))
  {
    var s := ['$', c] + rest;
    assert s[0] == '$' && s[1] == c && s[1..] == [c] + rest;
    assert st.cur + ['$'] == st.cur + "$";
  }

  /** A quote that never closes is noticed. */
  lemma OpenQuoteNoticed(ansi: string -> string, text: string, st: State)
    requires '\'' !in text
    ensures Tokens(ansi, "'" + text, st) ==
            (st.out + [st.cur + text], st.info.(unterminated := true))
  {
    var s := "'" + text;
    assert s[0] == '\'' && s[1..] == text;
    NoQuote(text);
    assert text[..|text|] == text;
  }

  lemma {:induction false} NoQuote(text: string)
    requires '\'' !in text
    ensures QuoteAt(text) == |text|
  {
    if text != "" {
      NoQuote(text[1..]);
    }
  }

  datatype Word = Bare(text: string) | Quoted(text: string)

  predicate Writable(w: Word) { w.Bare? ==> w.text != "" && forall c :: c in w.text ==> Safe(c) }

  function Written(w: Word): string { if w.Bare? then w.text else ShellQuote(w.text) }

  /** As strings.Join(args, " "). */
  function Joined(args: seq<string>): string {
    if args == [] then "" else if |args| == 1 then args[0] else args[0] + " " + Joined(args[1..])
  }

  function Render(words: seq<Word>): seq<string> {
    if words == [] then [] else [Written(words[0])] + Render(words[1..])
  }

  function Texts(words: seq<Word>): seq<string> {
    if words == [] then [] else [words[0].text] + Texts(words[1..])
  }

  lemma SafeStep(ansi: string -> string, c: char, rest: string, st: State)
    requires Safe(c)
    ensures Tokens(ansi, [c] + rest, st) == Tokens(ansi, rest, st.Write([c]))
  {
    var s := [c] + rest;
    assert s[1..] == rest && s[0] == c;
    assert st.Write([c]).Expanding(false) == st.Write([c]);
  }

  lemma {:induction false} BareRun(ansi: string -> string, text: string, rest: string, st: State)
    requires text != "" && forall c :: c in text ==> Safe(c)
    ensures Tokens(ansi, text + rest, st) == Tokens(ansi, rest, st.Write(text))
  {
    assert text + rest == [text[0]] + (text[1..] + rest);
    SafeStep(ansi, text[0], text[1..] + rest, st);
    hide Tokens, Safe;
    if |text| == 1 {
      assert text[1..] + rest == rest && [text[0]] == text;
    } else {
      BareRun(ansi, text[1..], rest, st.Write([text[0]]));
      assert st.cur + [text[0]] + text[1..] == st.cur + text;
    }
  }

  lemma {:induction false} QuoteAtEnd(a: string, rest: string)
    requires '\'' !in a
    ensures QuoteAt(a + "'" + rest) == |a|
  {
    if a == "" {
      assert (a + "'" + rest)[0] == '\'';
    } else {
      QuoteAtEnd(a[1..], rest);
      assert (a + "'" + rest)[1..] == a[1..] + "'" + rest;
    }
  }

  lemma {:induction false} EscapedPlain(a: string)
    requires '\'' !in a
    ensures Escaped(a) == a
  {
    if a != "" {
      EscapedPlain(a[1..]);
    }
  }

  lemma EscapedFirst(c: char, rest: string)
    ensures Escaped([c] + rest) == EscapedChar(c) + Escaped(rest)
  {
    assert ([c] + rest)[1..] == rest;
  }

  lemma {:induction false} EscapedAppend(a: string, b: string)
    ensures Escaped(a + b) == Escaped(a) + Escaped(b)
  {
    if a == "" {
      assert a + b == b;
    } else {
      hide *;
      var c, rest := a[0], a[1..];
      assert a == [c] + rest;
      Assoc([c], rest, b);
      EscapedFirst(c, rest);
      EscapedFirst(c, rest + b);
      EscapedAppend(rest, b);
      Assoc(EscapedChar(c), Escaped(rest), Escaped(b));
    }
  }

  lemma RunShape(a: string, rest: string)
    ensures var s := "'" + a + "'" + rest;
      && |s| >= |a| + 2 && s[0] == '\'' && s[0..] == s && s[1..] == a + "'" + rest
      && s[1..1+|a|] == a && s[|a|+2..] == rest
  {
    var s := "'" + a + "'" + rest;
    Assoc("'" + a, "'", rest);
    Assoc("'", a, "'" + rest);
    Assoc(a, "'", rest);
    assert s[1..] == a + ("'" + rest);
  }

  /** One single-quoted run with no quote in it. */
  lemma PlainRun(ansi: string -> string, a: string, rest: string, st: State)
    requires '\'' !in a
    ensures Tokens(ansi, "'" + a + "'" + rest, st) == Tokens(ansi, rest, st.Write(a))
  {
    var s := "'" + a + "'" + rest;
    RunShape(a, rest);
    QuoteAtEnd(a, rest);
    hide Tokens, QuoteAt;
    StepSingle(ansi, s, 0, st, 1 + |a|);
    assert Past(s, 1 + |a|) == |a| + 2;
  }

  lemma BackslashRun(ansi: string -> string, rest: string, st: State)
    ensures Tokens(ansi, "\\'" + rest, st) == Tokens(ansi, rest, st.Write("'"))
  {
    var s := "\\'" + rest;
    assert s[0] == '\\' && s[1] == '\'' && s[2..] == rest;
  }

  lemma Regroup(a: string, e: string, rest: string)
    ensures "'" + (a + (QUOTED_QUOTE + e)) + "'" + rest == "'" + a + "'" + ("\\'" + (("'" + e + "'") + rest))
  {
    assert QUOTED_QUOTE == "'" + "\\'" + "'";
  }

  lemma EscapedQuote(b: string)
    requires b != "" && b[0] == '\''
    ensures Escaped(b) == QUOTED_QUOTE + Escaped(b[1..])
  {
  }

  lemma EscapedAtQuote(text: string, k: nat)
    requires k == QuoteAt(text) && k < |text|
    ensures Escaped(text) == text[..k] + (QUOTED_QUOTE + Escaped(text[k+1..]))
  {
    hide Escaped, QUOTED_QUOTE, QuoteAt;
    var b := text[k..];
    EscapedPlain(text[..k]);
    EscapedAppend(text[..k], b);
    EscapedQuote(b);
    assert text == text[..k] + b && b[1..] == text[k+1..];
  }

  lemma WriteThrice(st: State, text: string, k: nat)
    requires k < |text| && text[k] == '\''
    ensures st.Write(text[..k]).Write("'").Write(text[k+1..]) == st.Write(text)
  {
    assert text == text[..k] + "'" + text[k+1..];
    assert st.cur + text[..k] + "'" + text[k+1..] == st.cur + text;
  }

  lemma {:induction false} QuotedRun(ansi: string -> string, text: string, rest: string, st: State)
    ensures Tokens(ansi, ShellQuote(text) + rest, st) == Tokens(ansi, rest, st.Write(text))
    decreases |text|
  {
    var k := QuoteAt(text);
    var a := text[..k];
    if k == |text| {
      EscapedPlain(a);
      assert a == text;
      PlainRun(ansi, a, rest, st);
    } else {
      var b := text[k+1..];
      EscapedAtQuote(text, k);
      hide Tokens, Escaped, QuoteAt, State.Write;
      Regroup(a, Escaped(b), rest);
      PlainRun(ansi, a, "\\'" + (ShellQuote(b) + rest), st);
      BackslashRun(ansi, ShellQuote(b) + rest, st.Write(a));
      QuotedRun(ansi, b, rest, st.Write(a).Write("'"));
      WriteThrice(st, text, k);
    }
  }

  lemma WordRun(ansi: string -> string, w: Word, rest: string, st: State)
    requires Writable(w)
    ensures Tokens(ansi, Written(w) + rest, st) == Tokens(ansi, rest, st.Write(w.text))
  {
    hide Tokens, ShellQuote;
    if w.Bare? {
      BareRun(ansi, w.text, rest, st);
    } else {
      QuotedRun(ansi, w.text, rest, st);
    }
  }

  lemma SpaceRun(ansi: string -> string, rest: string, st: State)
    ensures Tokens(ansi, " " + rest, st) == Tokens(ansi, rest, st.Push())
  {
    var s := " " + rest;
    assert s[0] == ' ' && s[1..] == rest;
  }

  lemma LastWord(ansi: string -> string, w: Word, st: State)
    requires Writable(w)
    ensures Tokens(ansi, Written(w), st) == (st.Write(w.text).Push().out, st.info)
  {
    hide Writable, Written;
    WordRun(ansi, w, "", st);
    assert Written(w) + "" == Written(w);
  }

  lemma JoinedNext(words: seq<Word>)
    requires |words| > 1
    ensures Joined(Render(words)) == Written(words[0]) + (" " + Joined(Render(words[1..])))
  {
    hide Written;
    var rest := Render(words[1..]);
    RenderSize(words[1..]);
    assert Render(words) == [Written(words[0])] + rest;
    hide Render;
    assert ([Written(words[0])] + rest)[1..] == rest;
  }

  lemma {:induction false} RenderSize(words: seq<Word>)
    ensures |Render(words)| == |words|
  {
    if words != [] {
      RenderSize(words[1..]);
    }
  }

  function Fresh(before: seq<string>): State { State(before, "", false, NO_INFO) }

  lemma PushedWord(before: seq<string>, text: string)
    ensures Fresh(before).Write(text).Push() == Fresh(before + [text])
  {
    assert "" + text == text;
  }

  lemma FirstWord(ansi: string -> string, words: seq<Word>, before: seq<string>)
    requires |words| > 1 && Writable(words[0])
    ensures Tokens(ansi, Joined(Render(words)), Fresh(before))
      == Tokens(ansi, Joined(Render(words[1..])), Fresh(before + [words[0].text]))
  {
    JoinedNext(words);
    PushedWord(before, words[0].text);
    hide *;
    var w, rest := words[0], Joined(Render(words[1..]));
    WordRun(ansi, w, " " + rest, Fresh(before));
    SpaceRun(ansi, rest, Fresh(before).Write(w.text));
  }

  lemma OnlyWord(ansi: string -> string, words: seq<Word>, before: seq<string>)
    requires |words| == 1 && Writable(words[0])
    ensures Tokens(ansi, Joined(Render(words)), Fresh(before)) == (before + [words[0].text], NO_INFO)
  {
    assert Joined(Render(words)) == Written(words[0]);
    PushedWord(before, words[0].text);
    hide Tokens, Written, Writable;
    LastWord(ansi, words[0], Fresh(before));
  }

  lemma TextsNext(words: seq<Word>, before: seq<string>)
    requires words != []
    ensures before + Texts(words) == before + [words[0].text] + Texts(words[1..])
  {
  }

  /** The tokeniser gives back any list of words, safely bare or single-quoted, and notices nothing else. */
  lemma {:induction false} SplitUndoesQuoting(ansi: string -> string, words: seq<Word>, before: seq<string>)
    requires forall w :: w in words ==> Writable(w)
    ensures Tokens(ansi, Joined(Render(words)), Fresh(before)) == (before + Texts(words), NO_INFO)
    decreases |words|
  {
    if words == [] {
      assert before + [] == before;
    } else if |words| == 1 {
      TextsNext(words, before);
      assert Texts(words) == [words[0].text];
      hide *;
      OnlyWord(ansi, words, before);
    } else {
      hide *;
      TextsNext(words, before);
      FirstWord(ansi, words, before);
      SplitUndoesQuoting(ansi, words[1..], before + [words[0].text]);
    }
  }
}
