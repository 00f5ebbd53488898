/** Percent-escapes and UTF-8, over bytes, as url.QueryUnescape, url.QueryEscape and utf8.ValidString treat them. */
module QueryText {
  import opened Basics

  predicate IsByte(c: char) { c as int < 256 }

  predicate Bytes(s: string) { forall i :: 0 <= i < |s| ==> IsByte(s[i]) }

  // ----- escapes -----

  predicate IsHex(c: char) { '0' <= c <= '9' || 'a' <= c <= 'f' || 'A' <= c <= 'F' }

  function HexValue(c: char): (v: nat)
    requires IsHex(c)
    ensures v < 16
  {
    if '0' <= c <= '9' then c as int - '0' as int
    else if 'a' <= c <= 'f' then c as int - 'a' as int + 10
    else c as int - 'A' as int + 10
  }

  function HexDigit(v: nat): (c: char)
    requires v < 16
    ensures IsHex(c) && HexValue(c) == v && c != '&' && c != '=' && c != '#' && c != '+'
  {
    if v < 10 then ('0' as int + v) as char else ('A' as int + v - 10) as char
  }

  /** url.QueryUnescape; None for a malformed escape. */
  function Unescape(s: string): Option<string> {
    if s == "" then Some("")
    else if s[0] == '%' then
      if |s| >= 3 && IsHex(s[1]) && IsHex(s[2]) then
        Prepend((16 * HexValue(s[1]) + HexValue(s[2])) as char, Unescape(s[3..]))
      else None
    else Prepend(if s[0] == '+' then ' ' else s[0], Unescape(s[1..]))
  }

  function Prepend(c: char, rest: Option<string>): Option<string> {
    if rest.None? then None else Some([c] + rest.value)
  }

  predicate Unreserved(c: char) {
    'a' <= c <= 'z' || 'A' <= c <= 'Z' || '0' <= c <= '9' || c == '-' || c == '_' || c == '.' || c == '~'
  }

  function EscapeByte(c: char): string
    requires IsByte(c)
  {
    if c == ' ' then "+" else if Unreserved(c) then [c] else ['%', HexDigit(c as int / 16), HexDigit(c as int % 16)]
  }

  /** url.QueryEscape. */
  function Escape(s: string): string
    requires Bytes(s)
  {
    if s == "" then "" else EscapeByte(s[0]) + Escape(s[1..])
  }

  /** strings.ReplaceAll(s, "+", "%20"). */
  function PlusAsEscape(s: string): string {
    if s == "" then "" else (if s[0] == '+' then "%20" else [s[0]]) + PlusAsEscape(s[1..])
  }

  function EncodeQuery(s: string): string
    requires Bytes(s)
  {
    PlusAsEscape(Escape(s))
  }

  lemma EncodeFirst(s: string)
    requires Bytes(s) && s != ""
    ensures EncodeQuery(s) == (if s[0] == ' ' then "%20" else EscapeByte(s[0])) + EncodeQuery(s[1..])
  {
    var rest := Escape(s[1..]);
    var c := s[0];
    if c == ' ' {
      assert (['+'] + rest)[1..] == rest;
    } else if Unreserved(c) {
      assert ([c] + rest)[1..] == rest;
    } else {
      var h, l := HexDigit(c as int / 16), HexDigit(c as int % 16);
      ThreePlain('%', h, l, rest);
    }
  }

  lemma OnePlain(c: char, rest: string)
    requires c != '+'
    ensures PlusAsEscape([c] + rest) == [c] + PlusAsEscape(rest)
  {
    assert ([c] + rest)[1..] == rest;
  }

  lemma ThreePlain(a: char, b: char, c: char, rest: string)
    requires a != '+' && b != '+' && c != '+'
    ensures PlusAsEscape([a, b, c] + rest) == [a, b, c] + PlusAsEscape(rest)
  {
    hide PlusAsEscape;
    OnePlain(a, [b] + ([c] + rest));
    OnePlain(b, [c] + rest);
    OnePlain(c, rest);
    assert [a] + ([b] + ([c] + rest)) == [a, b, c] + rest;
    assert [a] + ([b] + ([c] + PlusAsEscape(rest))) == [a, b, c] + PlusAsEscape(rest);
  }

  lemma UnescapeTriple(h: char, l: char, rest: string)
    requires IsHex(h) && IsHex(l)
    ensures Unescape(['%', h, l] + rest) == Prepend((16 * HexValue(h) + HexValue(l)) as char, Unescape(rest))
  {
    var s := ['%', h, l] + rest;
    assert s[0] == '%' && s[1] == h && s[2] == l && s[3..] == rest;
  }

  lemma UnescapePlain(c: char, rest: string)
    requires c != '%' && c != '+'
    ensures Unescape([c] + rest) == Prepend(c, Unescape(rest))
  {
    assert ([c] + rest)[1..] == rest;
  }

  /** Encoding is undone by decoding, whatever the bytes. */
  lemma {:induction false} UnescapeEncoded(s: string)
    requires Bytes(s)
    ensures Unescape(EncodeQuery(s)) == Some(s)
  {
    if s != "" {
      var c, rest := s[0], EncodeQuery(s[1..]);
      EncodeFirst(s);
      UnescapeEncoded(s[1..]);
      hide EncodeQuery, Unescape;
      assert s == [c] + s[1..];
      if c == ' ' {
        UnescapeTriple('2', '0', rest);
      } else if Unreserved(c) {
        UnescapePlain(c, rest);
      } else {
        assert 16 * (c as int / 16) + c as int % 16 == c as int;
        UnescapeTriple(HexDigit(c as int / 16), HexDigit(c as int % 16), rest);
      }
    }
  }

  /** What is encoded holds no separator. */
  lemma {:induction false} EncodedIsPlain(s: string)
    requires Bytes(s)
    ensures forall c :: c in EncodeQuery(s) ==> c == '%' || IsHex(c) || Unreserved(c)
    ensures |EncodeQuery(s)| >= |s|
  {
    if s != "" {
      EncodeFirst(s);
      EncodedIsPlain(s[1..]);
      hide EncodeQuery;
    }
  }

  /** A byte that is not unreserved makes the encoding longer. */
  lemma {:induction false} EncodedGrows(s: string)
    requires Bytes(s)
    ensures (exists i :: 0 <= i < |s| && !Unreserved(s[i])) ==> |EncodeQuery(s)| > |s|
  {
    if s != "" {
      EncodeFirst(s);
      EncodedIsPlain(s[1..]);
      EncodedGrows(s[1..]);
      hide EncodeQuery;
      if i :| 0 <= i < |s| && !Unreserved(s[i]) {
        assert i > 0 ==> s[1..][i-1] == s[i];
      }
    }
  }

  // ----- UTF-8 -----

  predicate In(s: string, i: nat, low: int, high: int) { i < |s| && low <= s[i] as int <= high }

  predicate Tail(s: string, i: nat) { In(s, i, 0x80, 0xBF) }

  /** The bytes of the first rune, 0 for none: table 3-7 of the Unicode standard. */
  function RuneLength(s: string): (n: nat)
    ensures n <= |s|
  {
    if In(s, 0, 0, 0x7F) then 1
    else if In(s, 0, 0xC2, 0xDF) then (if Tail(s, 1) then 2 else 0)
    else if (|| (In(s, 0, 0xE0, 0xE0) && In(s, 1, 0xA0, 0xBF))
             || (In(s, 0, 0xED, 0xED) && In(s, 1, 0x80, 0x9F))
             || ((In(s, 0, 0xE1, 0xEC) || In(s, 0, 0xEE, 0xEF)) && Tail(s, 1)))
    then (if Tail(s, 2) then 3 else 0)
    else if (|| (In(s, 0, 0xF0, 0xF0) && In(s, 1, 0x90, 0xBF))
             || (In(s, 0, 0xF4, 0xF4) && In(s, 1, 0x80, 0x8F))
             || (In(s, 0, 0xF1, 0xF3) && Tail(s, 1)))
    then (if Tail(s, 2) && Tail(s, 3) then 4 else 0)
    else 0
  }

  predicate ValidUtf8(s: string) { s == "" || (RuneLength(s) > 0 && ValidUtf8(s[RuneLength(s)..])) }

  /** A code point that is not a surrogate. */
  predicate Scalar(cp: int) { 0 <= cp < 0xD800 || 0xE000 <= cp < 0x11_0000 }

  /** Its bytes, by table 3-6 of the Unicode standard. */
  function Utf8(cp: int): (s: string)
    requires Scalar(cp)
    ensures s != ""
  {
    if cp < 0x80 then [cp as char]
    else if cp < 0x800 then [(0xC0 + cp / 64) as char, (0x80 + cp % 64) as char]
    else if cp < 0x1_0000 then
      [(0xE0 + cp / 4096) as char, (0x80 + cp / 64 % 64) as char, (0x80 + cp % 64) as char]
    else
      [(0xF0 + cp / 0x4_0000) as char, (0x80 + cp / 4096 % 64) as char, (0x80 + cp / 64 % 64) as char,
       (0x80 + cp % 64) as char]
  }

  /** The bytes of a code point are one rune, whatever follows them. */
  lemma RuneOfScalar(cp: int, rest: string)
    requires Scalar(cp)
    ensures RuneLength(Utf8(cp) + rest) == |Utf8(cp)|
  {
    var u := Utf8(cp);
    var s := u + rest;
    assert forall i :: 0 <= i < |u| ==> s[i] == u[i];
  }

  lemma TwoBytes(a: int, b: int)
    requires 0xC2 <= a <= 0xDF && 0x80 <= b <= 0xBF
    ensures var cp := (a - 0xC0) * 64 + (b - 0x80); Scalar(cp) && Utf8(cp) == [a as char, b as char]
  {
    var cp := (a - 0xC0) * 64 + (b - 0x80);
    assert cp / 64 == a - 0xC0 && cp % 64 == b - 0x80;
  }

  lemma ThreeBytes(a: int, b: int, c: int)
    requires 0xE0 <= a <= 0xEF && 0x80 <= b <= 0xBF && 0x80 <= c <= 0xBF
    requires (a == 0xE0 ==> b >= 0xA0) && (a == 0xED ==> b <= 0x9F)
    ensures var cp := (a - 0xE0) * 4096 + (b - 0x80) * 64 + (c - 0x80);
      Scalar(cp) && Utf8(cp) == [a as char, b as char, c as char]
  {
    var cp := (a - 0xE0) * 4096 + (b - 0x80) * 64 + (c - 0x80);
    assert cp / 64 == (a - 0xE0) * 64 + (b - 0x80) && cp % 64 == c - 0x80;
    assert cp / 4096 == a - 0xE0 && cp / 64 % 64 == b - 0x80;
  }

  lemma FourBytes(a: int, b: int, c: int, d: int)
    requires 0xF0 <= a <= 0xF4 && 0x80 <= b <= 0xBF && 0x80 <= c <= 0xBF && 0x80 <= d <= 0xBF
    requires (a == 0xF0 ==> b >= 0x90) && (a == 0xF4 ==> b <= 0x8F)
    ensures var cp := (a - 0xF0) * 0x4_0000 + (b - 0x80) * 4096 + (c - 0x80) * 64 + (d - 0x80);
      Scalar(cp) && Utf8(cp) == [a as char, b as char, c as char, d as char]
  {
    var cp := (a - 0xF0) * 0x4_0000 + (b - 0x80) * 4096 + (c - 0x80) * 64 + (d - 0x80);
    assert cp / 64 == (a - 0xF0) * 4096 + (b - 0x80) * 64 + (c - 0x80) && cp % 64 == d - 0x80;
    assert cp / 4096 == (a - 0xF0) * 64 + (b - 0x80) && cp / 64 % 64 == c - 0x80;
    assert cp / 0x4_0000 == a - 0xF0 && cp / 4096 % 64 == b - 0x80;
  }

  /** And each rune is the bytes of some code point. */
  lemma ScalarOfRune(s: string) returns (cp: int)
    requires RuneLength(s) > 0
    ensures Scalar(cp) && Utf8(cp) == s[..RuneLength(s)]
  {
    hide Utf8;
    var n, a := RuneLength(s), s[0] as int;
    if n == 1 {
      cp := a;
      OneByteIs(a);
    } else if n == 2 {
      TwoBytes(a, s[1] as int);
      cp := (a - 0xC0) * 64 + (s[1] as int - 0x80);
    } else if n == 3 {
      ThreeBytes(a, s[1] as int, s[2] as int);
      cp := (a - 0xE0) * 4096 + (s[1] as int - 0x80) * 64 + (s[2] as int - 0x80);
    } else {
      FourBytes(a, s[1] as int, s[2] as int, s[3] as int);
      cp := (a - 0xF0) * 0x4_0000 + (s[1] as int - 0x80) * 4096 + (s[2] as int - 0x80) * 64 + (s[3] as int - 0x80);
    }
  }

  lemma OneByteIs(a: int)
    requires 0 <= a < 0x80
    ensures Scalar(a) && Utf8(a) == [a as char]
  {
  }

  predicate Scalars(cps: seq<int>) { forall i :: 0 <= i < |cps| ==> Scalar(cps[i]) }

  function Encoded(cps: seq<int>): string
    requires Scalars(cps)
  {
    if cps == [] then "" else Utf8(cps[0]) + Encoded(cps[1..])
  }

  /** Text is valid exactly when it is the encoding of code points. */
  lemma ValidIff(s: string)
    ensures ValidUtf8(s) <==> exists cps :: Scalars(cps) && Encoded(cps) == s
  {
    if ValidUtf8(s) {
      var cps := CodePoints(s);
    }
    if cps :| Scalars(cps) && Encoded(cps) == s {
      EncodedIsValid(cps);
    }
  }

  lemma {:induction false} EncodedIsValid(cps: seq<int>)
    requires Scalars(cps)
    ensures ValidUtf8(Encoded(cps))
  {
    if cps != [] {
      EncodedIsValid(cps[1..]);
      RuneOfScalar(cps[0], Encoded(cps[1..]));
      hide Utf8, RuneLength;
      var s := Encoded(cps);
      assert s[|Utf8(cps[0])|..] == Encoded(cps[1..]);
    }
  }

  lemma EncodedFirst(cp: int, rest: seq<int>)
    requires Scalar(cp) && Scalars(rest)
    ensures Scalars([cp] + rest) && Encoded([cp] + rest) == Utf8(cp) + Encoded(rest)
  {
    hide Utf8;
    assert ([cp] + rest)[1..] == rest;
  }

  lemma {:induction false} CodePoints(s: string) returns (cps: seq<int>)
    requires ValidUtf8(s)
    ensures Scalars(cps) && Encoded(cps) == s
    decreases |s|
  {
    hide RuneLength, Utf8;
    if s == "" {
      cps := [];
    } else {
      var n := RuneLength(s);
      var cp := ScalarOfRune(s);
      var rest := CodePoints(s[n..]);
      EncodedFirst(cp, rest);
      hide *;
      cps := [cp] + rest;
      assert s == s[..n] + s[n..];
    }
  }

  lemma RuneStaysInside(a: string, c: char, b: string)
    requires a != "" && c as int < 0x80
    ensures RuneLength(a + [c] + b) == RuneLength(a)
  {
    var s := a + [c] + b;
    assert forall i :: 0 <= i < |a| ==> s[i] == a[i];
    assert s[|a|] == c;
  }

  /** No rune spans an ASCII byte, so text valid as a whole is valid up to one. */
  lemma {:induction false} ValidUpTo(a: string, c: char, b: string)
    requires c as int < 0x80 && ValidUtf8(a + [c] + b)
    ensures ValidUtf8(a)
    decreases |a|
  {
    if a != "" {
      RuneStaysInside(a, c, b);
      var n := RuneLength(a);
      assert (a + [c] + b)[n..] == a[n..] + [c] + b;
      ValidUpTo(a[n..], c, b);
    }
  }

  // ----- decodeOrRaw -----

  /** The decoded text, or the raw text when it does not decode to UTF-8. */
  function DecodeOrRaw(raw: string): string {
    var dec := Unescape(raw);
    if dec.None? || !ValidUtf8(dec.value) then raw else dec.value
  }

  lemma {:induction false} UnescapeShrinks(s: string)
    ensures Unescape(s).Some? ==> |Unescape(s).value| <= |s|
    ensures Unescape(s) == Some(s) <==> '%' !in s && '+' !in s
  {
    if s != "" {
      if s[0] == '%' {
        if |s| >= 3 {
          UnescapeShrinks(s[3..]);
        }
      } else {
        UnescapeShrinks(s[1..]);
        assert s == [s[0]] + s[1..];
      }
    }
  }

  /** Decoding works byte by byte around a character with no meaning of its own. */
  lemma {:induction false} UnescapeAround(a: string, c: char, b: string)
    requires c != '%' && c != '+' && !IsHex(c) && Unescape(a + [c] + b).Some?
    ensures Unescape(a).Some? && Unescape(b).Some?
    ensures Unescape(a + [c] + b).value == Unescape(a).value + [c] + Unescape(b).value
    decreases |a|
  {
    var s := a + [c] + b;
    assert s[|a|] == c;
    if a == "" {
      assert s[0] == c && s[1..] == b;
    } else if a[0] == '%' {
      assert s[0] == '%' && IsHex(s[1]) && IsHex(s[2]);
      assert s[1] == a[1] && s[2] == a[2] && s[3..] == a[3..] + [c] + b;
      UnescapeAround(a[3..], c, b);
    } else {
      assert s[0] == a[0] && s[1..] == a[1..] + [c] + b;
      UnescapeAround(a[1..], c, b);
    }
  }
}
