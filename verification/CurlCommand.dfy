/** Building a curl command for a URL, and reading a pasted one back. */
module CurlCommand {
  import opened Basics
  import opened ShellText
  import opened TextCuts

  // ----- small text helpers, over ASCII -----

  predicate IsSpace(c: char) {
    c == ' ' || c == '\t' || c == '\n' || c == '\r' || c as int == 11 || c as int == 12
  }

  function TrimLeft(s: string): string { if s != "" && IsSpace(s[0]) then TrimLeft(s[1..]) else s }

  function TrimRight(s: string): string {
    if s != "" && IsSpace(s[|s|-1]) then TrimRight(s[..|s|-1]) else s
  }

  function TrimSpace(s: string): string { TrimRight(TrimLeft(s)) }

  function UpperChar(c: char): char { if 'a' <= c <= 'z' then (c as int - 32) as char else c }

  function LowerChar(c: char): char { if 'A' <= c <= 'Z' then (c as int + 32) as char else c }

  function Upper(s: string): string { if s == "" then "" else [UpperChar(s[0])] + Upper(s[1..]) }

  function Lower(s: string): string { if s == "" then "" else [LowerChar(s[0])] + Lower(s[1..]) }

  predicate HasSuffix(s: string, end: string) { |end| <= |s| && s[|s|-|end|..] == end }

  function TrimSuffix(s: string, end: string): string { if HasSuffix(s, end) then s[..|s|-|end|] else s }

  predicate Contains(s: string, sub: string) { sub <= s || (s != "" && Contains(s[1..], sub)) }

  predicate AllBlank(s: string) { forall c :: c in s ==> c in [' ', '\t', '\n', '\r', 11 as char, 12 as char] }

  /** Nothing at either end is blank. */
  predicate Tight(s: string) { s != "" ==> !AllBlank([s[0]]) && !AllBlank([s[|s|-1]]) }

  /** Trimming takes blanks from both ends, as many as there are. */
  lemma TrimIs(s: string) returns (lead: string, trail: string)
    ensures s == lead + TrimSpace(s) + trail && AllBlank(lead) && AllBlank(trail) && Tight(TrimSpace(s))
  {
    lead := TrimLeftIs(s);
    trail := TrimRightIs(TrimLeft(s));
    var l, t := TrimLeft(s), TrimSpace(s);
    if t != "" {
      assert l[0] == t[0];
      BlankOne(t[0]);
      BlankOne(t[|t|-1]);
    }
    hide *;
    Assoc(lead, t, trail);
  }

  lemma BlankOne(c: char)
    ensures AllBlank([c]) <==> IsSpace(c)
  {
    assert c in [c];
  }

  lemma {:induction false} TrimLeftIs(s: string) returns (lead: string)
    ensures s == lead + TrimLeft(s) && AllBlank(lead) && (TrimLeft(s) != "" ==> !IsSpace(TrimLeft(s)[0]))
  {
    lead := "";
    if s != "" && IsSpace(s[0]) {
      lead := TrimLeftIs(s[1..]);
      lead := [s[0]] + lead;
    }
  }

  lemma {:induction false} TrimRightIs(s: string) returns (trail: string)
    ensures s == TrimRight(s) + trail && AllBlank(trail)
    ensures TrimRight(s) != "" ==> !IsSpace(TrimRight(s)[|TrimRight(s)|-1])
  {
    trail := "";
    if s != "" && IsSpace(s[|s|-1]) {
      trail := TrimRightIs(s[..|s|-1]);
      trail := trail + [s[|s|-1]];
    }
  }

  /** Upper case has no small letter and leaves a text without any as it is; lower case the other way round; */
  lemma {:induction false} CasesAre(s: string)
    ensures forall c :: c in Upper(s) ==> !('a' <= c <= 'z')
    ensures forall c :: c in Lower(s) ==> !('A' <= c <= 'Z')
    ensures (forall c :: c in s ==> !('a' <= c <= 'z')) ==> Upper(s) == s
    ensures (forall c :: c in s ==> !('A' <= c <= 'Z')) ==> Lower(s) == s
  {
    if s != "" {
      CasesAre(s[1..]);
      assert s == [s[0]] + s[1..] && s[0] in s && forall c :: c in s[1..] ==> c in s;
    }
  }

  /** and nothing but case is lost. */
  lemma {:induction false} CasesKeep(s: string)
    ensures Lower(Upper(s)) == Lower(s) && Upper(Lower(s)) == Upper(s)
  {
    if s != "" {
      CasesKeep(s[1..]);
      assert Upper(s)[1..] == Upper(s[1..]) && Lower(s)[1..] == Lower(s[1..]);
    }
  }

  // ----- what the library decides -----

  datatype Target = Target(scheme: string, host: string)

  /** url.Parse, the persona table, ansiCDecode, and url.QueryEscape with + as %20. */
  datatype Library = Library(
    parse: string -> Option<Target>, userAgent: string -> Option<string>,
    ansi: string -> string, dataEscape: string -> string)

  predicate Letter(c: char) { 'a' <= c <= 'z' || 'A' <= c <= 'Z' }

  /** A URL url.Parse gives a scheme and a host starts with the scheme's letter and holds "://". */
  predicate ParsesAbsolute(lib: Library, raw: string) {
    lib.parse(raw).Some? && lib.parse(raw).value.scheme != "" && lib.parse(raw).value.host != "" ==>
      raw != "" && Letter(raw[0]) && Contains(raw, "://")
  }

  // ----- building -----

  datatype Options = Options(persona: string, verb: string, follow: bool, showHeaders: bool, insecure: bool)

  datatype Error =
    BadURL | NotNetwork | NeedsHost | NotMethod | UnknownPersona | NoCommand | TooLong | OpenQuote | NoURL

  datatype Result<+T> = Ok(value: T) | Err(error: Error)

  predicate IsDangerousScheme(scheme: string) {
    Lower(scheme) in ["javascript", "data", "vbscript", "file", "blob"]
  }

  predicate IsMethodToken(m: string) {
    m != "" && forall c :: c in m ==> Letter(c) || c == '-' || c == '_'
  }

  predicate NeedsNoGlob(raw: string) { '[' in raw || ']' in raw || '{' in raw || '}' in raw }

  function Flag(on: bool, text: string): seq<Word> { if on then [Bare(text)] else [] }

  function Valued(on: bool, flag: string, value: string): seq<Word> {
    if on then [Bare(flag), Quoted(value)] else []
  }

  /** The arguments in order; verb is "" or GET for none, userAgent None for no persona. */
  function CurlWords(raw: string, verb: string, opt: Options, userAgent: Option<string>): seq<Word> {
    [Bare("curl")]
    + (Valued(verb != "" && verb != "GET", "-X", verb)
       + (Flag(opt.follow, "-L")
          + (Flag(opt.showHeaders, "-i")
             + (Flag(opt.insecure, "-k")
                + (Valued(userAgent.Some?, "-H", "User-Agent: " + userAgent.GetOr(""))
                   + (Flag(NeedsNoGlob(raw), "-g") + [Quoted(raw)]))))))
  }

  function Verb(opt: Options): string { Upper(TrimSpace(opt.verb)) }

  /** raw is what readURL accepted. */
  function ToCurl(lib: Library, raw: string, opt: Options): Result<string> {
    if lib.parse(raw).None? then Err(BadURL)
    else if IsDangerousScheme(lib.parse(raw).value.scheme) then Err(NotNetwork)
    else if lib.parse(raw).value.scheme == "" || lib.parse(raw).value.host == "" then Err(NeedsHost)
    else if Verb(opt) != "" && Verb(opt) != "GET" && !IsMethodToken(Verb(opt)) then Err(NotMethod)
    else if opt.persona != "" && lib.userAgent(opt.persona).None? then Err(UnknownPersona)
    else
      var agent := if opt.persona == "" then None else lib.userAgent(opt.persona);
      Ok(Joined(Render(CurlWords(raw, Verb(opt), opt, agent))))
  }

  // ----- flags -----

  const ARG_SHORTS: set<char> := {
    'A', 'b', 'C', 'c', 'D', 'd', 'E', 'e', 'F', 'H', 'K', 'm', 'o', 'P', 'Q', 'r', 'T', 't', 'U', 'u', 'w', 'X', 'x',
    'Y',
    'y', 'z'}

  const ARG_FLAGS: set<string> := {
    "--header", "--url", "--request", "--data", "--data-raw", "--data-binary", "--data-urlencode", "--data-ascii",
    "--form", "--form-string", "--json", "--user", "--user-agent", "--referer", "--cookie", "--cookie-jar", "--output",
    "--dump-header", "--proxy", "--proxy-user", "--cert", "--key", "--cacert", "--capath", "--range", "--retry",
    "--max-time", "--max-redirs", "--connect-timeout", "--resolve", "--write-out", "--upload-file", "--oauth2-bearer",
    "--aws-sigv4", "--interface", "--limit-rate", "--time-cond", "--continue-at", "--config", "--netrc-file"}

  const BODY_FLAGS: set<string> := {
    "-d", "--data", "--data-raw", "--data-binary", "--data-ascii", "--data-urlencode", "-F", "--form", "--form-string",
    "--json"}

  predicate TakesArg(c: char) { c in ARG_SHORTS }

  predicate Long(t: string) { "--" <= t }

  predicate FlagTakesArg(name: string) {
    if Long(name) then name in ARG_FLAGS else |name| == 2 && TakesArg(name[1])
  }

  /** Where a cluster's first letter taking an argument is, from i on, or the end. */
  function FirstTaking(t: string, i: nat): (j: nat)
    requires i <= |t|
    ensures i <= j <= |t| && (j < |t| ==> TakesArg(t[j])) && forall k :: i <= k < j ==> !TakesArg(t[k])
    decreases |t| - i
  {
    if i == |t| || TakesArg(t[i]) then i else FirstTaking(t, i + 1)
  }

  /** A flag and the value joined to it, if any. */
  datatype FlagValue = FlagValue(name: string, val: Option<string>)

  function SplitFlag(t: string): FlagValue
    requires t != ""
  {
    if Long(t) then
      var j := CutAt(t, '=');
      if j < |t| then FlagValue(t[..j], Some(t[j+1..])) else FlagValue(t, None)
    else
      var j := FirstTaking(t, 1);
      if j < |t| then FlagValue(['-', t[j]], if j + 1 < |t| then Some(t[j+1..]) else None) else FlagValue(t, None)
  }

  /** The letters of a cluster that stand before any argument. */
  function Switches(t: string): string
    requires t != ""
  {
    t[1..FirstTaking(t, 1)]
  }

  // ----- reading -----

  datatype Header = Header(name: string, value: string)

  function ParseHeader(s: string): Option<Header> {
    var j := CutAt(s, ':');
    if j == |s| then
      var n := TrimSpace(TrimSuffix(s, ";"));
      if n != s && n != "" then Some(Header(n, "")) else None
    else
      var name := TrimSpace(s[..j]);
      if name == "" then None else Some(Header(name, TrimSpace(s[j+1..])))
  }

  /** A header's name and value stand on either side of its first colon. */
  lemma HeaderRead(name: string, value: string)
    requires ':' !in name
    ensures ParseHeader(name + [':'] + value) ==
            if TrimSpace(name) == "" then None else Some(Header(TrimSpace(name), TrimSpace(value)))
  {
    CutJoined(name, ':', value);
    hide CutAt, TrimSpace;
  }

  predicate LooksLikeURL(t: string) {
    || Contains(t, "://") || "[" <= t || "localhost" <= t || (':' in t && '/' in t) || ('.' in t && !("." <= t))
  }

  predicate IsPromptNoise(t: string) { t in ["$", "%", "#", ">", "PS>", "sudo", "&&", ";", "|"] }

  predicate IsCurlWord(t: string) {
    var w := Lower(TrimSuffix(t, ".exe"));
    w == "curl" || HasSuffix(w, "/curl")
  }

  /** What has been read so far. */
  datatype Seen = Seen(
    url: string, headers: seq<Header>, explicit: string, get: bool, head: bool,
    bodyFlag: string, bodyBytes: nat, data: seq<string>) {
    function Operand(t: string): Seen { if url == "" && LooksLikeURL(t) then this.(url := t) else this }

    function AddHeader(name: string, value: string): Seen { this.(headers := headers + [Header(name, value)]) }

    function Switched(t: string, name: string): Seen
      requires t != ""
    {
      if name == "--get" then this.(get := true)
      else if name == "--head" then this.(head := true)
      else if !Long(t) then this.(get := get || 'G' in Switches(t), head := head || 'I' in Switches(t))
      else this
    }
  }

  const NOTHING := Seen("", [], "", false, false, "", 0, [])

  function EncodeData(lib: Library, v: string): string {
    var j := CutAt(v, '=');
    if "@" <= v || ('@' in v && j == |v|) then v
    else if j < |v| then v[..j] + (if j == 0 then "" else "=") + lib.dataEscape(v[j+1..])
    else lib.dataEscape(v)
  }

  /** Of name=value only the value is escaped, and of a value alone all of it. */
  lemma DataEncoded(lib: Library, name: string, value: string)
    requires '=' !in name && '@' !in name
    ensures EncodeData(lib, name + ['='] + value) ==
            if name == "" then lib.dataEscape(value) else name + "=" + lib.dataEscape(value)
    ensures EncodeData(lib, name) == lib.dataEscape(name)
  {
    CutJoined(name, '=', value);
    CutNone(name, '=');
    var v := name + ['='] + value;
    assert v[0] == if name == "" then '=' else name[0];
    assert name[..0] == "" && name + "" == name;
    hide CutAt;
  }

  /** What a flag's value adds. */
  function Take(lib: Library, seen: Seen, name: string, val: string): Seen {
    if name == "-H" || name == "--header" then
      var h := ParseHeader(val);
      if h.Some? then seen.AddHeader(h.value.name, h.value.value) else seen
    else if name == "--url" then (if seen.url == "" then seen.(url := val) else seen)
    else if name == "-A" || name == "--user-agent" then seen.AddHeader("User-Agent", val)
    else if name == "-e" || name == "--referer" then seen.AddHeader("Referer", TrimSuffix(val, ";auto"))
    else if name == "-b" || name == "--cookie" then (if '=' in val then seen.AddHeader("Cookie", val) else seen)
    else if name == "-X" || name == "--request" then seen.(explicit := Upper(val))
    else if name in BODY_FLAGS then
      seen.(bodyFlag := if seen.bodyFlag == "" then name else seen.bodyFlag, bodyBytes := seen.bodyBytes + |val|,
            data := seen.data + [if name == "--data-urlencode" then EncodeData(lib, val) else val])
    else if name == "-u" || name == "--user" then
      seen.AddHeader("Authorization", "Basic, from -u (user " + val[..CutAt(val, ':')] + ", password not shown)")
    else seen
  }

  function Operands(toks: seq<string>, seen: Seen): Seen {
    if toks == [] then seen else Operands(toks[1..], seen.Operand(toks[0]))
  }

  predicate IsOperand(t: string) { !("-" <= t) || t == "-" }

  /** The loop over curl's arguments, from the front of toks on. */
  function ReadArgs(lib: Library, toks: seq<string>, seen: Seen): Seen
    decreases |toks|
  {
    if toks == [] then seen
    else if toks[0] == "--" then Operands(toks[1..], seen)
    else if IsOperand(toks[0]) then ReadArgs(lib, toks[1..], seen.Operand(toks[0]))
    else
      var flag := SplitFlag(toks[0]);
      var switched := seen.Switched(toks[0], flag.name);
      if flag.val.Some? then ReadArgs(lib, toks[1..], Take(lib, switched, flag.name, flag.val.value))
      else if FlagTakesArg(flag.name) && |toks| > 1 then
        ReadArgs(lib, toks[2..], Take(lib, switched, flag.name, toks[1]))
      else ReadArgs(lib, toks[1..], switched)
  }

  datatype Why = SetWithX | ImpliedByI | MovedByG(flag: string) | ImpliedBy(flag: string) | Default

  datatype Remark = OnlyURL | NotCurl | EndsAt(operator: string) | Expansion

  datatype Request = Request(
    url: string, headers: seq<Header>, verb: string, why: Why, bodyBytes: nat, remarks: seq<Remark>)

  const MAX_INPUT := 65536

  function Noise(toks: seq<string>): (i: nat)
    ensures i <= |toks|
  {
    if toks != [] && IsPromptNoise(toks[0]) then 1 + Noise(toks[1..]) else 0
  }

  /** Where the arguments start, and a remark on the word before them. */
  function Opening(toks: seq<string>): (nat, seq<Remark>) {
    var i := Noise(toks);
    if i < |toks| && IsCurlWord(toks[i]) then (i + 1, [])
    else if i == |toks| - 1 && LooksLikeURL(toks[i]) then (i, [OnlyURL])
    else if i < |toks| && !LooksLikeURL(toks[i]) && !("-" <= toks[i]) then (i, [NotCurl])
    else (i, [])
  }

  /** A prompt and the like before the word curl are passed over. */
  lemma {:induction false} NoisePassed(noise: seq<string>, word: string, args: seq<string>)
    requires (forall n :: n in noise ==> IsPromptNoise(n)) && IsCurlWord(word) && !IsPromptNoise(word)
    ensures Opening(noise + [word] + args) == (|noise| + 1, [])
  {
    NoiseIs(noise, [word] + args);
    assert noise + [word] + args == noise + ([word] + args);
    hide IsPromptNoise, IsCurlWord, LooksLikeURL, Noise;
  }

  lemma {:induction false} NoiseIs(noise: seq<string>, rest: seq<string>)
    requires (forall n :: n in noise ==> IsPromptNoise(n)) && rest != [] && !IsPromptNoise(rest[0])
    ensures Noise(noise + rest) == |noise|
  {
    hide IsPromptNoise;
    if noise == [] {
      assert noise + rest == rest;
    } else {
      assert (noise + rest)[1..] == noise[1..] + rest;
      NoiseIs(noise[1..], rest);
    }
  }

  /** A URL on its own is read with a remark, and so is a first word that is neither curl, a flag nor a URL. */
  lemma NoCurlWord(word: string, args: seq<string>)
    requires !IsPromptNoise(word) && !IsCurlWord(word)
    ensures LooksLikeURL(word) ==> Opening([word]) == (0, [OnlyURL])
    ensures !LooksLikeURL(word) && !("-" <= word) ==> Opening([word] + args) == (0, [NotCurl])
  {
    hide IsPromptNoise, IsCurlWord, LooksLikeURL;
    assert Noise([word]) == 0 && Noise([word] + args) == 0;
  }

  function JoinData(data: seq<string>): string {
    if data == [] then "" else if |data| == 1 then data[0] else data[0] + "&" + JoinData(data[1..])
  }

  function Spaced(s: string): string {
    if s == "" then "" else (if s[0] == ' ' then "%20" else [s[0]]) + Spaced(s[1..])
  }

  /** curl's precedence: -X, then -I, then -G with a body, then a body means POST. */
  function Settle(seen: Seen, remarks: seq<Remark>): Request {
    if seen.explicit != "" then Request(seen.url, seen.headers, seen.explicit, SetWithX, seen.bodyBytes, remarks)
    else if seen.head then Request(seen.url, seen.headers, "HEAD", ImpliedByI, seen.bodyBytes, remarks)
    else if seen.get && seen.bodyFlag != "" then
      Request(seen.url + (if '?' in seen.url then "&" else "?") + Spaced(JoinData(seen.data)), seen.headers, "GET",
              MovedByG(seen.bodyFlag), 0, remarks)
    else if seen.bodyFlag != "" then
      Request(seen.url, seen.headers, "POST", ImpliedBy(seen.bodyFlag), seen.bodyBytes, remarks)
    else Request(seen.url, seen.headers, "GET", Default, seen.bodyBytes, remarks)
  }

  /** A method given with -X stands whatever else is said; without one -I means HEAD, data means POST and -G with data
      puts the data in the URL of a GET. */
  lemma MethodSettled(seen: Seen, remarks: seq<Remark>)
    ensures var r := Settle(seen, remarks);
      && r.headers == seen.headers && r.remarks == remarks
      && (seen.explicit != "" ==> r.verb == seen.explicit && r.why == SetWithX)
      && (seen.explicit == "" && seen.head ==> r.verb == "HEAD" && r.why == ImpliedByI)
      && (seen.explicit == "" && !seen.head && seen.bodyFlag != "" && !seen.get ==>
            r.verb == "POST" && r.why == ImpliedBy(seen.bodyFlag))
      && (seen.explicit == "" && !seen.head && seen.bodyFlag != "" && seen.get ==>
            r.verb == "GET" && r.why == MovedByG(seen.bodyFlag) && r.bodyBytes == 0 && seen.url < r.url)
      && (seen.explicit == "" && !seen.head && seen.bodyFlag == "" ==> r.verb == "GET" && r.why == Default)
      && (!r.why.MovedByG? ==> r.url == seen.url && r.bodyBytes == seen.bodyBytes)
  {
  }

  /** -X's value in upper case is what MethodSettled goes by, */
  lemma MethodTaken(lib: Library, seen: Seen, val: string)
    ensures Take(lib, seen, "-X", val) == seen.(explicit := Upper(val))
  {
  }

  /** and so is data, counted and kept. */
  lemma DataTaken(lib: Library, seen: Seen, val: string)
    ensures Take(lib, seen, ['-', 'd'], val) ==
            seen.(bodyFlag := if seen.bodyFlag == "" then ['-', 'd'] else seen.bodyFlag,
                  bodyBytes := seen.bodyBytes + |val|, data := seen.data + [val])
  {
    var name := ['-', 'd'];
    assert name in BODY_FLAGS by { assert name == "-d"; }
    hide BODY_FLAGS, ParseHeader, TrimSuffix, EncodeData, CutAt;
    assert |name| == 2 && name[1] == 'd';
    assert name != "-H" && name != "-A" && name != "-e" && name != "-b" && name != "-X";
    assert name != "--header" && name != "--url" && name != "--user-agent" && name != "--referer" && name != "--cookie";
    assert name != "--request" && name != "--data-urlencode";
  }

  /** The password given with -u reaches no header: what is read is the same for any two. */
  lemma PasswordNotShown(lib: Library, seen: Seen, name: string, user: string, one: string, other: string)
    requires name in ["-u", "--user"] && ':' !in user
    ensures Take(lib, seen, name, user + [':'] + one) == Take(lib, seen, name, user + [':'] + other)
  {
    CutJoined(user, ':', one);
    CutJoined(user, ':', other);
    hide CutAt;
  }

  /** A cluster of short flags: the switches before the first that takes an argument, which takes the rest. */
  lemma ClusterRead(sw: string, c: char, val: string)
    requires TakesArg(c) && (forall s :: s in sw ==> !TakesArg(s)) && '-' !in sw && c != '-'
    ensures var t := "-" + sw + [c] + val;
      && SplitFlag(t) == FlagValue(['-', c], if val == "" then None else Some(val)) && Switches(t) == sw
      && FlagTakesArg(['-', c])
  {
    var t := "-" + sw + [c] + val;
    var j := FirstTaking(t, 1);
    assert t[|sw| + 1] == c && t[1..|sw| + 1] == sw && t[|sw| + 2..] == val;
    assert forall k :: 1 <= k < |sw| + 1 ==> t[k] == sw[k - 1] && t[k] in sw;
    assert j == |sw| + 1;
    assert t[1] != '-' && ['-', c][1] == c;
    hide TakesArg;
  }

  /** A long flag and the value joined to it. */
  lemma LongRead(name: string, val: string)
    requires "--" <= name && '=' !in name
    ensures SplitFlag(name + ['='] + val) == FlagValue(name, Some(val)) && SplitFlag(name) == FlagValue(name, None)
  {
    CutJoined(name, '=', val);
    CutNone(name, '=');
    assert "--" <= name + ['='] + val;
    hide CutAt, FirstTaking;
  }

  lemma TakeKeepsUrl(lib: Library, seen: Seen, name: string, val: string)
    ensures seen.url != "" ==> Take(lib, seen, name, val).url == seen.url
  {
    hide ParseHeader, Upper, EncodeData, TrimSuffix, BODY_FLAGS, CutAt;
  }

  lemma TurnKeepsUrl(seen: Seen, t: string, name: string)
    ensures t != "" ==> seen.Switched(t, name).url == seen.url
    ensures seen.url != "" ==> seen.Operand(t) == seen
  {
    hide LooksLikeURL, Switches;
  }

  /** The first URL among the arguments is the one read. */
  lemma {:induction false} FirstUrlStays(lib: Library, toks: seq<string>, seen: Seen)
    requires seen.url != ""
    ensures ReadArgs(lib, toks, seen).url == seen.url
    decreases |toks|
  {
    hide SplitFlag, FlagTakesArg, Take, Seen.Switched, Seen.Operand, Operands;
    if toks != [] {
      var t := toks[0];
      TurnKeepsUrl(seen, t, "");
      if t == "--" {
        OperandsStay(toks[1..], seen);
      } else if IsOperand(t) {
        FirstUrlStays(lib, toks[1..], seen.Operand(t));
      } else {
        var flag := SplitFlag(t);
        var switched := seen.Switched(t, flag.name);
        TurnKeepsUrl(seen, t, flag.name);
        if flag.val.Some? {
          TakeKeepsUrl(lib, switched, flag.name, flag.val.value);
          FirstUrlStays(lib, toks[1..], Take(lib, switched, flag.name, flag.val.value));
        } else if FlagTakesArg(flag.name) && |toks| > 1 {
          TakeKeepsUrl(lib, switched, flag.name, toks[1]);
          FirstUrlStays(lib, toks[2..], Take(lib, switched, flag.name, toks[1]));
        } else {
          FirstUrlStays(lib, toks[1..], switched);
        }
      }
    }
  }

  lemma {:induction false} OperandsStay(toks: seq<string>, seen: Seen)
    requires seen.url != ""
    ensures Operands(toks, seen).url == seen.url
  {
    if toks != [] {
      OperandsStay(toks[1..], seen.Operand(toks[0]));
    }
  }

  /** What is built carries a flag exactly when it was asked for, and -g exactly when the URL holds what curl would take
      for a pattern. */
  lemma FlagsBuilt(raw: string, verb: string, opt: Options, userAgent: Option<string>, c: char)
    ensures Bare(['-', c]) in CurlWords(raw, verb, opt, userAgent) <==>
            || (c == 'L' && opt.follow) || (c == 'i' && opt.showHeaders) || (c == 'k' && opt.insecure)
            || (c == 'g' && ('[' in raw || ']' in raw || '{' in raw || '}' in raw))
            || (c == 'X' && verb != "" && verb != "GET") || (c == 'H' && userAgent.Some?)
  {
    var agent, w := "User-Agent: " + userAgent.GetOr(""), Bare(['-', c]);
    assert NeedsNoGlob(raw) <==> '[' in raw || ']' in raw || '{' in raw || '}' in raw;
    hide NeedsNoGlob;
    assert |"curl"| == 4 && w != Bare("curl");
    FlagHas(opt.follow, 'L');
    FlagHas(opt.showHeaders, 'i');
    FlagHas(opt.insecure, 'k');
    FlagHas(NeedsNoGlob(raw), 'g');
    ValuedHas(verb != "" && verb != "GET", 'X', verb);
    ValuedHas(userAgent.Some?, 'H', agent);
    hide Flag, Valued;
  }

  lemma FlagHas(on: bool, c: char)
    ensures forall d :: Bare(['-', d]) in Flag(on, ['-', c]) <==> on && d == c
  {
    forall d ensures Bare(['-', d]) in Flag(on, ['-', c]) <==> on && d == c {
      assert ['-', d][1] == d && ['-', c][1] == c;
    }
  }

  lemma ValuedHas(on: bool, c: char, value: string)
    ensures forall d :: Bare(['-', d]) in Valued(on, ['-', c], value) <==> on && d == c
  {
    forall d ensures Bare(['-', d]) in Valued(on, ['-', c], value) <==> on && d == c {
      assert ['-', d][1] == d && ['-', c][1] == c;
    }
  }

  /** A command is built exactly for a network URL with a host, a method of letters, '-' and '_', and a persona there
      is. */
  lemma BuiltIff(lib: Library, raw: string, opt: Options)
    ensures ToCurl(lib, raw, opt).Ok? <==>
      && lib.parse(raw).Some?
      && Lower(lib.parse(raw).value.scheme) !in ["javascript", "data", "vbscript", "file", "blob"]
      && lib.parse(raw).value.scheme != "" && lib.parse(raw).value.host != ""
      && (forall c :: c in Verb(opt) ==> 'a' <= c <= 'z' || 'A' <= c <= 'Z' || c in ['-', '_'])
      && (opt.persona != "" ==> lib.userAgent(opt.persona).Some?)
  {
    hide CurlWords, Render, Joined, Upper, TrimSpace;
  }

  function Remarks(info: Info): seq<Remark> {
    (if info.stoppedAt != "" then [EndsAt(info.stoppedAt)] else []) + (if info.expansion then [Expansion] else [])
  }

  function ReadCurl(lib: Library, cmd: string): Result<Request> {
    if cmd == "" then Err(NoCommand)
    else if |cmd| > MAX_INPUT then Err(TooLong)
    else
      var (toks, info) := Tokens(lib.ansi, cmd, START);
      if info.unterminated then Err(OpenQuote)
      else
        var (i, remark) := Opening(toks);
        var seen := ReadArgs(lib, toks[i..], NOTHING);
        if seen.url == "" then Err(NoURL)
        else if lib.parse(seen.url).None? then Err(BadURL)
        else Ok(Settle(seen, remark + Remarks(info)))
  }

  // ----- the loops of readCurl -----

  lemma SkipOne<T>(s: seq<T>, i: nat)
    requires i < |s|
    ensures s[i..] != [] && s[i..][0] == s[i] && s[i..][1..] == s[i+1..]
    ensures i + 1 < |s| ==> s[i..][1] == s[i+1] && s[i..][2..] == s[i+2..]
  {
  }

  method ReadOperands(toks: seq<string>, from: nat, before: Seen) returns (seen: Seen)
    requires from <= |toks|
    ensures seen == Operands(toks[from..], before)
  {
    seen := before;
    var i := from;
    while i < |toks|
      invariant from <= i <= |toks| && Operands(toks[i..], seen) == Operands(toks[from..], before)
    {
      SkipOne(toks, i);
      seen := seen.Operand(toks[i]);
      i := i + 1;
    }
  }

  method ReadAll(lib: Library, toks: seq<string>, from: nat) returns (seen: Seen)
    requires from <= |toks|
    ensures seen == ReadArgs(lib, toks[from..], NOTHING)
  {
    hide FlagTakesArg, Take, Seen.Switched, Seen.Operand, SplitFlag, Operands;
    seen := NOTHING;
    var i := from;
    while i < |toks|
      invariant from <= i <= |toks| && ReadArgs(lib, toks[i..], seen) == ReadArgs(lib, toks[from..], NOTHING)
    {
      SkipOne(toks, i);
      var t := toks[i];
      i := i + 1;
      if t == "--" {
        seen := ReadOperands(toks, i, seen);
        return;
      }
      if IsOperand(t) {
        seen := seen.Operand(t);
        continue;
      }
      var flag := SplitFlag(t);
      seen := seen.Switched(t, flag.name);
      var val := flag.val;
      if val.None? && FlagTakesArg(flag.name) && i < |toks| {
        val := Some(toks[i]);
        i := i + 1;
      }
      if val.Some? {
        seen := Take(lib, seen, flag.name, val.value);
      }
    }
  }

  method ReadCommand(lib: Library, cmd: string) returns (r: Result<Request>)
    ensures r == ReadCurl(lib, cmd)
  {
    hide Tokens, ReadArgs, Settle, Remarks, IsPromptNoise, IsCurlWord, LooksLikeURL;
    if cmd == "" {
      return Err(NoCommand);
    }
    if |cmd| > MAX_INPUT {
      return Err(TooLong);
    }
    var toks, info := ShellSplit(lib.ansi, cmd);
    if info.unterminated {
      return Err(OpenQuote);
    }
    var i := 0;
    while i < |toks| && IsPromptNoise(toks[i])
      invariant 0 <= i <= |toks| && Noise(toks) == i + Noise(toks[i..])
    {
      SkipOne(toks, i);
      i := i + 1;
    }
    assert Noise(toks) == i;
    var remarks := [];
    if i < |toks| && IsCurlWord(toks[i]) {
      i := i + 1;
    } else if i == |toks| - 1 && LooksLikeURL(toks[i]) {
      remarks := [OnlyURL];
    } else if i < |toks| && !LooksLikeURL(toks[i]) && !("-" <= toks[i]) {
      remarks := [NotCurl];
    }
    assert Opening(toks) == (i, remarks);
    var seen := ReadAll(lib, toks, i);
    if seen.url == "" {
      return Err(NoURL);
    }
    if lib.parse(seen.url).None? {
      return Err(BadURL);
    }
    r := Ok(Settle(seen, remarks + Remarks(info)));
  }
}
