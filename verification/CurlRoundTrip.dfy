/** Reading back the command built for a URL. */
module CurlRoundTrip {
  import opened Basics
  import opened ShellText
  import opened CurlCommand
  import opened TextCuts

  // ----- the words are writable, and what they say -----

  function FlagText(on: bool, text: string): seq<string> { if on then [text] else [] }

  function ValuedText(on: bool, flag: string, value: string): seq<string> { if on then [flag, value] else [] }

  function CurlTexts(raw: string, verb: string, opt: Options, userAgent: Option<string>): seq<string> {
    ValuedText(verb != "" && verb != "GET", "-X", verb)
    + (FlagText(opt.follow, "-L")
       + (FlagText(opt.showHeaders, "-i")
          + (FlagText(opt.insecure, "-k")
             + (ValuedText(userAgent.Some?, "-H", "User-Agent: " + userAgent.GetOr(""))
                + (FlagText(NeedsNoGlob(raw), "-g") + [raw])))))
  }

  lemma TextsFirst(w: Word, rest: seq<Word>)
    ensures Texts([w] + rest) == [w.text] + Texts(rest)
  {
    assert ([w] + rest)[1..] == rest;
  }

  lemma {:induction false} TextsAppend(a: seq<Word>, b: seq<Word>)
    ensures Texts(a + b) == Texts(a) + Texts(b)
  {
    if a == [] {
      assert a + b == b;
    } else {
      hide Texts;
      var rest := a[1..];
      assert a == [a[0]] + rest;
      Assoc([a[0]], rest, b);
      TextsFirst(a[0], rest);
      TextsFirst(a[0], rest + b);
      TextsAppend(rest, b);
      Assoc([a[0].text], Texts(rest), Texts(b));
    }
  }

  lemma FlagTexts(on: bool, text: string, rest: seq<Word>)
    ensures Texts(Flag(on, text) + rest) == FlagText(on, text) + Texts(rest)
  {
    TextsAppend(Flag(on, text), rest);
    assert on ==> Flag(on, text)[1..] == [];
  }

  lemma ValuedTexts(on: bool, flag: string, value: string, rest: seq<Word>)
    ensures Texts(Valued(on, flag, value) + rest) == ValuedText(on, flag, value) + Texts(rest)
  {
    TextsAppend(Valued(on, flag, value), rest);
    assert on ==> Valued(on, flag, value)[1..] == [Quoted(value)];
  }

  lemma WordsSay(raw: string, verb: string, opt: Options, userAgent: Option<string>)
    ensures Texts(CurlWords(raw, verb, opt, userAgent)) == ["curl"] + CurlTexts(raw, verb, opt, userAgent)
  {
    hide Texts, Flag, Valued, NeedsNoGlob;
    var w6 := Flag(NeedsNoGlob(raw), "-g") + [Quoted(raw)];
    var w5 := Valued(userAgent.Some?, "-H", "User-Agent: " + userAgent.GetOr("")) + w6;
    var w4 := Flag(opt.insecure, "-k") + w5;
    var w3 := Flag(opt.showHeaders, "-i") + w4;
    var w2 := Flag(opt.follow, "-L") + w3;
    var w1 := Valued(verb != "" && verb != "GET", "-X", verb) + w2;
    OneText(Quoted(raw));
    FlagTexts(NeedsNoGlob(raw), "-g", [Quoted(raw)]);
    ValuedTexts(userAgent.Some?, "-H", "User-Agent: " + userAgent.GetOr(""), w6);
    FlagTexts(opt.insecure, "-k", w5);
    FlagTexts(opt.showHeaders, "-i", w4);
    FlagTexts(opt.follow, "-L", w3);
    ValuedTexts(verb != "" && verb != "GET", "-X", verb, w2);
    OneText(Bare("curl"));
    TextsAppend([Bare("curl")], w1);
  }

  lemma OneText(w: Word)
    ensures Texts([w]) == [w.text]
  {
    assert [w][1..] == [];
  }

  ghost predicate AllWritable(words: seq<Word>) { forall w :: w in words ==> Writable(w) }

  lemma FlagWritable(on: bool, text: string, rest: seq<Word>)
    requires Writable(Bare(text)) && AllWritable(rest)
    ensures AllWritable(Flag(on, text) + rest)
  {
    hide Writable;
  }

  lemma ValuedWritable(on: bool, flag: string, value: string, rest: seq<Word>)
    requires Writable(Bare(flag)) && AllWritable(rest)
    ensures AllWritable(Valued(on, flag, value) + rest)
  {
    assert Writable(Quoted(value));
    hide Writable;
  }

  lemma BareWords()
    ensures Writable(Bare("curl")) && Writable(Bare("-X")) && Writable(Bare("-L")) && Writable(Bare("-i"))
    ensures Writable(Bare("-k")) && Writable(Bare("-H")) && Writable(Bare("-g"))
  {
  }

  lemma WordsWritable(raw: string, verb: string, opt: Options, userAgent: Option<string>)
    ensures AllWritable(CurlWords(raw, verb, opt, userAgent))
  {
    BareWords();
    assert AllWritable([Quoted(raw)]);
    hide Writable, AllWritable, Flag, Valued, NeedsNoGlob;
    var agent := "User-Agent: " + userAgent.GetOr("");
    var w6 := Flag(NeedsNoGlob(raw), "-g") + [Quoted(raw)];
    var w5 := Valued(userAgent.Some?, "-H", agent) + w6;
    var w4 := Flag(opt.insecure, "-k") + w5;
    var w3 := Flag(opt.showHeaders, "-i") + w4;
    var w2 := Flag(opt.follow, "-L") + w3;
    var w1 := Valued(verb != "" && verb != "GET", "-X", verb) + w2;
    FlagWritable(NeedsNoGlob(raw), "-g", [Quoted(raw)]);
    ValuedWritable(userAgent.Some?, "-H", agent, w6);
    FlagWritable(opt.insecure, "-k", w5);
    FlagWritable(opt.showHeaders, "-i", w4);
    FlagWritable(opt.follow, "-L", w3);
    ValuedWritable(verb != "" && verb != "GET", "-X", verb, w2);
    FirstWritable(Bare("curl"), w1);
  }

  lemma FirstWritable(w: Word, rest: seq<Word>)
    requires Writable(w) && AllWritable(rest)
    ensures AllWritable([w] + rest)
  {
    hide Writable;
  }

  // ----- reading the words back, one flag at a time -----

  lemma ShortsTake()
    ensures TakesArg('X') && TakesArg('H')
  {
  }

  lemma ShortsSwitch(c: char)
    requires c in ['L', 'i', 'k', 'g']
    ensures !TakesArg(c)
  {
  }

  /** A switch the reader has no use for. */
  lemma SwitchRead(lib: Library, c: char, rest: seq<string>, seen: Seen)
    requires c in ['L', 'i', 'k', 'g']
    ensures ReadArgs(lib, [['-', c]] + rest, seen) == ReadArgs(lib, rest, seen)
  {
    var t := ['-', c];
    var toks := [t] + rest;
    ShortsSwitch(c);
    hide TakesArg, Take;
    assert FirstTaking(t, 1) == 2;
    assert SplitFlag(t) == FlagValue(t, None);
    assert seen.Switched(t, t) == seen by {
      assert Switches(t) == [c];
    }
    assert !FlagTakesArg(t);
    assert toks[0] == t && toks[1..] == rest;
  }

  lemma FlagRead(lib: Library, on: bool, c: char, rest: seq<string>, seen: Seen)
    requires c in ['L', 'i', 'k', 'g']
    ensures ReadArgs(lib, FlagText(on, ['-', c]) + rest, seen) == ReadArgs(lib, rest, seen)
  {
    if on {
      SwitchRead(lib, c, rest, seen);
    } else {
      assert FlagText(on, ['-', c]) + rest == rest;
    }
  }

  /** A flag whose value is the next word. */
  lemma ValueRead(lib: Library, c: char, value: string, rest: seq<string>, seen: Seen)
    requires c == 'X' || c == 'H'
    ensures ReadArgs(lib, [['-', c], value] + rest, seen) == ReadArgs(lib, rest, Take(lib, seen, ['-', c], value))
  {
    var t := ['-', c];
    var toks := [t, value] + rest;
    ShortsTake();
    hide TakesArg, Take;
    assert FirstTaking(t, 1) == 1;
    assert SplitFlag(t) == FlagValue(t, None);
    assert seen.Switched(t, t) == seen by {
      assert Switches(t) == [];
    }
    assert FlagTakesArg(t);
    assert toks[0] == t && toks[1] == value && toks[2..] == rest;
  }

  /** The URL, alone at the end. */
  lemma OperandRead(lib: Library, raw: string, seen: Seen)
    requires seen.url == "" && raw != "" && Letter(raw[0]) && LooksLikeURL(raw)
    ensures ReadArgs(lib, [raw], seen) == seen.(url := raw)
  {
    hide LooksLikeURL;
    assert [raw][1..] == [];
    assert IsOperand(raw);
  }

  lemma {:induction false} UpperTwice(s: string)
    ensures Upper(Upper(s)) == Upper(s)
  {
    if s != "" {
      UpperTwice(s[1..]);
    }
  }

  lemma UserAgentRead(lib: Library, seen: Seen, ua: string)
    ensures Take(lib, seen, "-H", "User-Agent: " + ua) == seen.AddHeader("User-Agent", TrimSpace(" " + ua))
  {
    var s := "User-Agent: " + ua;
    HeaderCut(ua);
    assert s[..10] == "User-Agent" && s[11..] == " " + ua;
    TrimSame("User-Agent");
  }

  lemma HeaderCut(ua: string)
    ensures CutAt("User-Agent: " + ua, ':') == 10
  {
    var s := "User-Agent: " + ua;
    assert ':' !in "User-Agent";
    assert s[..10] == "User-Agent" && s[10] == ':';
    CutIs(s, ':', 10);
  }

  lemma TrimSame(s: string)
    requires s != "" && !IsSpace(s[0]) && !IsSpace(s[|s|-1])
    ensures TrimSpace(s) == s
  {
  }

  lemma TrimAfterBlank(s: string)
    ensures TrimSpace(" " + s) == TrimSpace(s)
  {
    assert (" " + s)[1..] == s;
  }

  /** What reading the built arguments gives. */
  function ReadBack(raw: string, verb: string, userAgent: Option<string>): Seen {
    Seen(raw, if userAgent.Some? then [Header("User-Agent", TrimSpace(userAgent.value))] else [],
         if verb != "" && verb != "GET" then verb else "", false, false, "", 0, [])
  }

  lemma ArgsRead(lib: Library, raw: string, verb: string, opt: Options, userAgent: Option<string>)
    requires raw != "" && Letter(raw[0]) && LooksLikeURL(raw) && Upper(verb) == verb
    ensures ReadArgs(lib, CurlTexts(raw, verb, opt, userAgent), NOTHING) == ReadBack(raw, verb, userAgent)
  {
    hide ReadArgs, LooksLikeURL, NeedsNoGlob, FlagText, Take, TrimSpace;
    var glob := FlagText(NeedsNoGlob(raw), "-g") + [raw];
    var agent := "User-Agent: " + userAgent.GetOr("");
    var t5 := ValuedText(userAgent.Some?, "-H", agent) + glob;
    var t4 := FlagText(opt.insecure, "-k") + t5;
    var t3 := FlagText(opt.showHeaders, "-i") + t4;
    var t2 := FlagText(opt.follow, "-L") + t3;
    var seen := NOTHING;
    if verb != "" && verb != "GET" {
      ValueRead(lib, 'X', verb, t2, seen);
      VerbRead(lib, seen, verb);
      seen := seen.(explicit := verb);
    } else {
      assert ValuedText(false, "-X", verb) + t2 == t2;
    }
    FlagRead(lib, opt.follow, 'L', t3, seen);
    FlagRead(lib, opt.showHeaders, 'i', t4, seen);
    FlagRead(lib, opt.insecure, 'k', t5, seen);
    if userAgent.Some? {
      ValueRead(lib, 'H', agent, glob, seen);
      UserAgentRead(lib, seen, userAgent.value);
      TrimAfterBlank(userAgent.value);
      seen := seen.AddHeader("User-Agent", TrimSpace(userAgent.value));
    } else {
      assert ValuedText(false, "-H", agent) + glob == glob;
    }
    FlagRead(lib, NeedsNoGlob(raw), 'g', [raw], seen);
    OperandRead(lib, raw, seen);
  }

  lemma VerbRead(lib: Library, seen: Seen, verb: string)
    requires Upper(verb) == verb
    ensures Take(lib, seen, "-X", verb) == seen.(explicit := verb)
  {
  }

  lemma CurlOpens(rest: seq<string>)
    ensures Opening(["curl"] + rest) == (1, [])
  {
    var toks := ["curl"] + rest;
    assert toks[0] == "curl";
    assert !IsPromptNoise("curl");
    assert Lower("curl") == "curl" by {
      assert "curl"[1..] == "url" && "url"[1..] == "rl" && "rl"[1..] == "l" && "l"[1..] == "";
    }
    assert TrimSuffix("curl", ".exe") == "curl";
  }

  function GivenMethod(verb: string): string { if verb == "" then "GET" else verb }

  /** For every URL and every choice of options ToCurl accepts: the command, when it fits the limit, reads back as the
      same URL with the method asked for in upper case, GET when none was, the persona's User-Agent trimmed, no body and
      nothing to remark on; when it does not fit, it is refused. */
  lemma CurlRoundTrip(lib: Library, raw: string, opt: Options)
    requires ToCurl(lib, raw, opt).Ok? && ParsesAbsolute(lib, raw)
    ensures var cmd, back := ToCurl(lib, raw, opt).value, ReadCurl(lib, ToCurl(lib, raw, opt).value);
      var agent := if opt.persona == "" then None else lib.userAgent(opt.persona);
      if |cmd| > MAX_INPUT then back == Err(TooLong)
      else
        && back.Ok? && back.value.url == raw && back.value.verb == GivenMethod(Verb(opt))
        && back.value.headers == (if agent.Some? then [Header("User-Agent", TrimSpace(agent.value))] else [])
        && back.value.bodyBytes == 0 && back.value.remarks == []
  {
    var verb, cmd := Verb(opt), ToCurl(lib, raw, opt).value;
    var agent := if opt.persona == "" then None else lib.userAgent(opt.persona);
    var words := CurlWords(raw, verb, opt, agent);
    assert LooksLikeURL(raw);
    UpperTwice(TrimSpace(opt.verb));
    assert Joined(Render(words))[0] == 'c' by { JoinedNext(words); }
    WordsWritable(raw, verb, opt, agent);
    WordsSay(raw, verb, opt, agent);
    assert Fresh([]) == START;
    hide *;
    SplitUndoesQuoting(lib.ansi, words, []);
    assert [] + Texts(words) == Texts(words);
    var rest := CurlTexts(raw, verb, opt, agent);
    CurlOpens(rest);
    ArgsRead(lib, raw, verb, opt, agent);
    assert (["curl"] + rest)[1..] == rest;
    ReadFrom(lib, cmd, ["curl"] + rest, raw, verb, agent);
  }

  lemma ReadFrom(lib: Library, cmd: string, toks: seq<string>, raw: string, verb: string, agent: Option<string>)
    requires cmd != "" && raw != "" && lib.parse(raw).Some?
    requires Tokens(lib.ansi, cmd, START) == (toks, NO_INFO) && Opening(toks) == (1, []) && toks != []
    requires ReadArgs(lib, toks[1..], NOTHING) == ReadBack(raw, verb, agent)
    ensures ReadCurl(lib, cmd) == if |cmd| > MAX_INPUT then Err(TooLong)
      else Ok(Request(raw, ReadBack(raw, verb, agent).headers, GivenMethod(verb),
                      if verb == "" || verb == "GET" then Default else SetWithX, 0, []))
  {
    hide Tokens, ReadArgs, Opening;
    var none: seq<Remark> := [];
    assert none + Remarks(NO_INFO) == none;
  }
}
