/** The urldefense v3 substitution: '*' stands for the next replacement byte, "**X" for a run of them. */
module UrlDefense {
  import opened Basics
  import opened TextCuts
  import Passwords

  const ALPHABET := Passwords.UPPER + Passwords.LOWER + Passwords.DIGITS + "-_"

  const LETTERS := 64

  /** strings.IndexByte(v3Alphabet, c), LETTERS for none. */
  function Index(c: char): nat { CutAt(ALPHABET, c) }

  function Before(text: string, rest: Option<string>): Option<string> {
    if rest.None? then None else Some(text + rest.value)
  }

  /** What the munged text stands for, given the replacement bytes; None where the loop gives up. */
  function Decode(munged: string, repl: string): Option<string> {
    if munged == "" then Some("")
    else if munged[0] != '*' then Before(munged[..1], Decode(munged[1..], repl))
    else if |munged| > 1 && munged[1] == '*' then
      if |munged| == 2 then None
      else
        var n := Index(munged[2]);
        if n >= LETTERS || n + 2 > |repl| then None else Before(repl[..n+2], Decode(munged[3..], repl[n+2..]))
    else if repl == "" then None
    else Before(repl[..1], Decode(munged[1..], repl[1..]))
  }

  lemma BeforeTwice(a: string, b: string, rest: Option<string>)
    ensures Before(a, Before(b, rest)) == Before(a + b, rest)
  {
    if rest.Some? {
      Assoc(a, b, rest.value);
    }
  }

  lemma DecodeStep(munged: string, repl: string, i: nat, ri: nat)
    requires i < |munged| && ri <= |repl|
    ensures Decode(munged[i..], repl[ri..]) ==
      if munged[i] != '*' then Before([munged[i]], Decode(munged[i+1..], repl[ri..]))
      else if i + 1 < |munged| && munged[i+1] == '*' then
        if i + 2 >= |munged| then None
        else
          var n := Index(munged[i+2]);
          if n >= LETTERS || ri + n + 2 > |repl| then None
          else Before(repl[ri..ri+n+2], Decode(munged[i+3..], repl[ri+n+2..]))
      else if ri >= |repl| then None
      else Before([repl[ri]], Decode(munged[i+1..], repl[ri+1..]))
  {
    hide Index, Before;
    var m, r := munged[i..], repl[ri..];
    assert m[0] == munged[i] && m[1..] == munged[i+1..] && m[..1] == [munged[i]];
    if ri < |repl| {
      assert r[0] == repl[ri] && r[1..] == repl[ri+1..] && r[..1] == [repl[ri]];
    }
    if i + 2 < |munged| {
      assert m[1] == munged[i+1] && m[2] == munged[i+2] && m[3..] == munged[i+3..];
      var n := Index(munged[i+2]);
      if ri + n + 2 <= |repl| {
        assert r[..n+2] == repl[ri..ri+n+2] && r[n+2..] == repl[ri+n+2..];
      }
    }
  }

  /** The decode loop; the source gives "" where it gives up. */
  method DecodeLoop(munged: string, repl: string) returns (b: string)
    ensures b == Decode(munged, repl).GetOr("")
  {
    hide Decode, Before, Index;
    b := "";
    var i, ri := 0, 0;
    Start(munged, repl);
    while i < |munged|
      invariant 0 <= i <= |munged| && 0 <= ri <= |repl|
      invariant Decode(munged, repl) == Before(b, Decode(munged[i..], repl[ri..]))
    {
      DecodeStep(munged, repl, i, ri);
      GivesUp(b);
      if munged[i] != '*' {
        BeforeTwice(b, [munged[i]], Decode(munged[i+1..], repl[ri..]));
        b := b + [munged[i]];
        i := i + 1;
        continue;
      }
      if i + 1 < |munged| && munged[i+1] == '*' {
        if i + 2 >= |munged| {
          return "";
        }
        var n := Index(munged[i+2]);
        if n >= LETTERS || ri + n + 2 > |repl| {
          return "";
        }
        BeforeTwice(b, repl[ri..ri+n+2], Decode(munged[i+3..], repl[ri+n+2..]));
        b := b + repl[ri..ri+n+2];
        ri := ri + n + 2;
        i := i + 3;
        continue;
      }
      if ri >= |repl| {
        return "";
      }
      BeforeTwice(b, [repl[ri]], Decode(munged[i+1..], repl[ri+1..]));
      b := b + [repl[ri]];
      ri := ri + 1;
      i := i + 1;
    }
    End(b, munged, repl[ri..]);
  }

  lemma Start(munged: string, repl: string)
    ensures Before("", Decode(munged[0..], repl[0..])) == Decode(munged, repl)
  {
    assert munged[0..] == munged && repl[0..] == repl;
    assert forall t: string :: "" + t == t;
  }

  lemma GivesUp(b: string)
    ensures Before(b, None) == None
  {
  }

  lemma End(b: string, munged: string, repl: string)
    ensures Before(b, Decode(munged[|munged|..], repl)) == Some(b)
  {
    assert b + "" == b;
  }

  // ----- encoders -----

  /** A stretch left as it is, one byte replaced, or a run of them. */
  datatype Piece = Lit(text: string) | One(byte: char) | Run(bytes: string)

  predicate Fits(p: Piece) {
    match p
    case Lit(text) => '*' !in text
    case One(_) => true
    case Run(bytes) => 2 <= |bytes| < LETTERS + 2
  }

  function Stands(p: Piece): string {
    match p case Lit(text) => text case One(byte) => [byte] case Run(bytes) => bytes
  }

  function Plain(ps: seq<Piece>): string { if ps == [] then "" else Stands(ps[0]) + Plain(ps[1..]) }

  function Mark(p: Piece): string
    requires Fits(p)
  {
    match p
    case Lit(text) => text
    case One(_) => "*"
    case Run(bytes) => AlphabetSize(); ['*', '*', ALPHABET[|bytes| - 2]]
  }

  ghost predicate AllFit(ps: seq<Piece>) { forall i :: 0 <= i < |ps| ==> Fits(ps[i]) }

  function Munge(ps: seq<Piece>): string
    requires AllFit(ps)
  {
    if ps == [] then "" else Mark(ps[0]) + Munge(ps[1..])
  }

  function Used(p: Piece): string { if p.Lit? then "" else Stands(p) }

  function Repl(ps: seq<Piece>): string {
    if ps == [] then "" else Used(ps[0]) + Repl(ps[1..])
  }

  /** A single replaced byte must not run into another '*'. */
  ghost predicate Apart(ps: seq<Piece>)
    requires AllFit(ps)
  {
    ps == [] || ((ps[0].One? ==> !("*" <= Munge(ps[1..]))) && Apart(ps[1..]))
  }

  // ----- the alphabet -----

  lemma AlphabetSize()
    ensures |ALPHABET| == LETTERS
  {
  }

  function Letter(k: nat): char
    requires k < LETTERS
  {
    if k < 26 then ('A' as int + k) as char
    else if k < 52 then ('a' as int + k - 26) as char
    else if k < 62 then ('0' as int + k - 52) as char
    else if k == 62 then '-' else '_'
  }

  lemma UpperIs()
    ensures forall k :: 0 <= k < 26 ==> Passwords.UPPER[k] == Letter(k)
  {
  }

  lemma LowerIs()
    ensures forall k :: 0 <= k < 26 ==> Passwords.LOWER[k] == Letter(26 + k)
  {
  }

  lemma DigitsAre()
    ensures forall k :: 0 <= k < 10 ==> Passwords.DIGITS[k] == Letter(52 + k)
  {
  }

  lemma AlphabetIs(k: nat)
    requires k < LETTERS
    ensures |ALPHABET| == LETTERS && ALPHABET[k] == Letter(k)
  {
    AlphabetSize();
    assert |Passwords.UPPER| == 26 && |Passwords.LOWER| == 26 && |Passwords.DIGITS| == 10;
    UpperIs();
    LowerIs();
    DigitsAre();
    hide Passwords.UPPER, Passwords.LOWER, Passwords.DIGITS;
  }

  /** Each letter stands for its own place. */
  lemma IndexOfLetter(k: nat)
    requires k < LETTERS
    ensures |ALPHABET| == LETTERS && Index(ALPHABET[k]) == k
  {
    AlphabetIs(k);
    forall j | 0 <= j < k ensures ALPHABET[j] != ALPHABET[k] {
      AlphabetIs(j);
    }
    hide ALPHABET;
    CutIs(ALPHABET, ALPHABET[k], k);
  }

  // ----- decoding undoes every encoder -----

  lemma {:induction false} LitRun(text: string, m: string, r: string)
    requires '*' !in text
    ensures Decode(text + m, r) == Before(text, Decode(m, r))
  {
    if text == "" {
      assert text + m == m;
      Start(m, r);
      assert m[0..] == m && r[0..] == r;
    } else {
      var s := text + m;
      assert s[0] == text[0] && s[1..] == text[1..] + m && s[..1] == text[..1] && text == text[..1] + text[1..];
      LitRun(text[1..], m, r);
      BeforeTwice(text[..1], text[1..], Decode(m, r));
      assert Decode(s, r) == Before(s[..1], Decode(s[1..], r));
    }
  }

  lemma OneByte(b: char, m: string, r: string)
    requires !("*" <= m)
    ensures Decode("*" + m, [b] + r) == Before([b], Decode(m, r))
  {
    var s, t := "*" + m, [b] + r;
    assert s[0] == '*' && s[1..] == m && t[..1] == [b] && t[1..] == r;
    assert |s| > 1 ==> s[1] == m[0];
  }

  lemma RunOfBytes(bytes: string, m: string, r: string)
    requires 2 <= |bytes| < LETTERS + 2
    ensures |ALPHABET| == LETTERS
    ensures Decode(['*', '*', ALPHABET[|bytes|-2]] + m, bytes + r) == Before(bytes, Decode(m, r))
  {
    var n := |bytes| - 2;
    IndexOfLetter(n);
    var s, t := ['*', '*', ALPHABET[n]] + m, bytes + r;
    assert s[0] == '*' && s[1] == '*' && s[2] == ALPHABET[n] && s[3..] == m;
    assert t[..n+2] == bytes && t[n+2..] == r;
    hide ALPHABET, Index;
  }

  /** One piece decodes to the text it stands for. */
  lemma PieceDecodes(p: Piece, m: string, r: string)
    requires Fits(p) && (p.One? ==> !("*" <= m))
    ensures Decode(Mark(p) + m, Used(p) + r) == Before(Stands(p), Decode(m, r))
  {
    hide Decode, ALPHABET, Before;
    match p
    case Lit(text) =>
      assert "" + r == r;
      LitRun(text, m, r);
    case One(b) =>
      OneByte(b, m, r);
    case Run(bytes) =>
      RunOfBytes(bytes, m, r);
  }

  /** For any way of cutting a text into stretches left alone, single bytes and runs, decoding the munged text with the
      replaced bytes gives the text back; bytes left over do no harm. */
  lemma {:induction false} DecodeUndoes(ps: seq<Piece>, extra: string)
    requires AllFit(ps) && Apart(ps)
    ensures Decode(Munge(ps), Repl(ps) + extra) == Some(Plain(ps))
  {
    if ps != [] {
      DecodeUndoes(ps[1..], extra);
      hide Decode, ALPHABET, Before, Mark, Used, Stands;
      PieceDecodes(ps[0], Munge(ps[1..]), Repl(ps[1..]) + extra);
      Assoc(Used(ps[0]), Repl(ps[1..]), extra);
      Joins(Stands(ps[0]), Plain(ps[1..]));
    }
  }

  lemma Joins(a: string, b: string)
    ensures Before(a, Some(b)) == Some(a + b)
  {
  }

  lemma PiecesFirst(p: Piece, rest: seq<Piece>)
    requires Fits(p) && AllFit(rest)
    ensures AllFit([p] + rest) && Munge([p] + rest) == Mark(p) + Munge(rest)
    ensures Repl([p] + rest) == Used(p) + Repl(rest)
    ensures Plain([p] + rest) == Stands(p) + Plain(rest)
    ensures Apart(rest) && (p.One? ==> !("*" <= Munge(rest))) ==> Apart([p] + rest)
  {
    var ps := [p] + rest;
    assert ps[0] == p && ps[1..] == rest;
    hide ALPHABET;
  }

  ghost predicate Encodes(ps: seq<Piece>, m: string, r: string, text: string) {
    AllFit(ps) && Apart(ps) && Munge(ps) == m && Repl(ps) <= r && Plain(ps) == text
  }

  lemma EncodesMore(p: Piece, rest: seq<Piece>, m: string, r: string, text: string)
    requires Fits(p) && Encodes(rest, m, r, text) && (p.One? ==> !("*" <= m))
    ensures Encodes([p] + rest, Mark(p) + m, Used(p) + r, Stands(p) + text)
  {
    PiecesFirst(p, rest);
    hide Munge, Repl, Plain, Apart, AllFit, Mark, Used, Stands;
    PrefixMore(Used(p), Repl(rest), r);
  }

  lemma PrefixMore(a: string, b: string, c: string)
    requires b <= c
    ensures a + b <= a + c
  {
  }

  lemma FirstPiece(m: string, r: string) returns (p: Piece, k: nat)
    requires m != "" && Decode(m, r).Some?
    ensures Fits(p) && 0 < k <= |m| && Mark(p) == m[..k] && Used(p) <= r && (p.One? ==> !("*" <= m[k..]))
    ensures Decode(m[k..], r[|Used(p)|..]).Some?
    ensures Decode(m, r).value == Stands(p) + Decode(m[k..], r[|Used(p)|..]).value
  {
    p, k := Lit(m[..1]), 1;
    if m[0] == '*' {
      if |m| > 1 && m[1] == '*' {
        p, k := Run(r[..Index(m[2])+2]), 3;
        assert Mark(p) == m[..3];
      } else {
        p := One(r[0]);
        assert Mark(p) == m[..1];
      }
    }
    hide ALPHABET;
  }

  /** Nothing else decodes: text the loop accepts was munged so, from the replacement bytes it used. */
  lemma {:induction false} DecodedWasMunged(m: string, r: string) returns (ps: seq<Piece>)
    requires Decode(m, r).Some?
    ensures Encodes(ps, m, r, Decode(m, r).value)
    decreases |m|
  {
    if m == "" {
      ps := [];
    } else {
      var p, k := FirstPiece(m, r);
      var u := |Used(p)|;
      assert m == m[..k] + m[k..] && r == Used(p) + r[u..];
      hide *;
      var rest := DecodedWasMunged(m[k..], r[u..]);
      EncodesMore(p, rest, m[k..], r[u..], Decode(m[k..], r[u..]).value);
      ps := [p] + rest;
    }
  }

  // ----- every choice of bytes to replace can be encoded -----

  /** Which bytes of the text the pieces replace. */
  function Replaced(ps: seq<Piece>): seq<bool> {
    if ps == [] then [] else seq(|Stands(ps[0])|, _ => !ps[0].Lit?) + Replaced(ps[1..])
  }

  /** How many bytes from the front are replaced, no more than a run can hold. */
  function RunLength(mask: seq<bool>, most: nat): (n: nat)
    ensures n <= |mask| && n <= most
    ensures forall i :: 0 <= i < n ==> mask[i]
    ensures n < most && n < |mask| ==> !mask[n]
  {
    if most == 0 || mask == [] || !mask[0] then 0 else 1 + RunLength(mask[1..], most - 1)
  }

  ghost predicate Chooses(ps: seq<Piece>, text: string, mask: seq<bool>) {
    AllFit(ps) && Apart(ps) && Plain(ps) == text && Replaced(ps) == mask
  }

  lemma ChoosesMore(p: Piece, rest: seq<Piece>, text: string, mask: seq<bool>)
    requires Fits(p) && Chooses(rest, text, mask) && (p.One? ==> !("*" <= Munge(rest)))
    ensures Chooses([p] + rest, Stands(p) + text, seq(|Stands(p)|, _ => !p.Lit?) + mask)
    ensures Munge([p] + rest) == Mark(p) + Munge(rest)
  {
    PiecesFirst(p, rest);
    assert ([p] + rest)[1..] == rest;
    hide Munge, Repl, Plain, Apart, AllFit, Mark;
  }

  lemma FirstChoice(text: string, mask: seq<bool>) returns (p: Piece, n: nat)
    requires |mask| == |text| > 0 && forall i :: 0 <= i < |text| && text[i] == '*' ==> mask[i]
    ensures Fits(p) && 0 < n <= |text| && Stands(p) == text[..n] && mask[..n] == seq(n, _ => !p.Lit?)
    ensures p.One? && n < |mask| ==> !mask[n]
    ensures !mask[0] ==> p.Lit? && '*' !in text[..n]
  {
    var run := RunLength(mask, LETTERS + 1);
    n := if run == 0 then 1 else run;
    p := if run == 0 then Lit(text[..1]) else if run == 1 then One(text[0]) else Run(text[..run]);
  }

  /** Any choice of bytes that takes in every '*' can be encoded, so every text can be. */
  lemma {:induction false} EveryChoiceEncodes(text: string, mask: seq<bool>) returns (ps: seq<Piece>)
    requires |mask| == |text| && forall i :: 0 <= i < |text| && text[i] == '*' ==> mask[i]
    ensures Chooses(ps, text, mask)
    ensures mask == [] || !mask[0] ==> AllFit(ps) && !("*" <= Munge(ps))
    decreases |text|
  {
    if text == "" {
      ps := [];
    } else {
      var p, n := FirstChoice(text, mask);
      forall i | 0 <= i < |text| - n && text[n..][i] == '*' ensures mask[n..][i] {
        assert text[n + i] == '*';
      }
      assert text == Stands(p) + text[n..] && mask == seq(n, _ => !p.Lit?) + mask[n..];
      assert |Stands(p)| == n && (p.Lit? ==> Mark(p) == text[..n]);
      hide *;
      var rest := EveryChoiceEncodes(text[n..], mask[n..]);
      ChoosesFits(rest, text[n..], mask[n..]);
      ChoosesMore(p, rest, text[n..], mask[n..]);
      ps := [p] + rest;
      ChoosesFits(ps, text, mask);
      if !mask[0] {
        StartsPlain(text[..n], Munge(rest));
      }
    }
  }

  lemma StartsPlain(a: string, b: string)
    requires a != "" && '*' !in a
    ensures !("*" <= a + b)
  {
    assert (a + b)[0] == a[0] && a[0] in a;
  }

  lemma ChoosesFits(ps: seq<Piece>, text: string, mask: seq<bool>)
    requires Chooses(ps, text, mask)
    ensures AllFit(ps)
  {
  }
}
