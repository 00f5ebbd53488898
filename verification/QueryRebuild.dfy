/** Reading a query into parameters and printing them back. */
module QueryRebuild {
  import opened Basics
  import opened TextCuts
  import opened QueryText

  /** rawKey and rawValue are "" when the text was written as it reads. */
  datatype Param = Param(key: string, rawKey: string, value: string, rawValue: string, valueless: bool)

  // ----- printing -----

  predicate QuerySafe(s: string) {
    && '&' !in s && '#' !in s && ' ' !in s
    && forall i :: 0 <= i < |s| ==> s[i] as int >= 0x20 && s[i] as int != 0x7F
  }

  function WriteBack(dec: string, raw: string): string
    requires Bytes(dec)
  {
    if raw != "" && Unescape(raw) == Some(dec) then raw
    else if Unescape(dec).None? && QuerySafe(dec) then dec
    else if Unescape(dec) == Some(dec) && QuerySafe(dec) then dec
    else EncodeQuery(dec)
  }

  predicate ByteParam(p: Param) { Bytes(p.key) && Bytes(p.value) }

  predicate AllBytes(ps: seq<Param>) { forall i :: 0 <= i < |ps| ==> ByteParam(ps[i]) }

  function WrittenKey(p: Param): string
    requires ByteParam(p)
  {
    WriteBack(p.key, p.rawKey)
  }

  function Piece(p: Param): string
    requires ByteParam(p)
  {
    WrittenKey(p) + (if p.valueless then "" else ['='] + WriteBack(p.value, p.rawValue))
  }

  function Pieces(ps: seq<Param>): (r: seq<string>)
    requires AllBytes(ps)
    ensures |r| == |ps| && forall i :: 0 <= i < |ps| ==> r[i] == Piece(ps[i])
  {
    if ps == [] then [] else Pieces(ps[..|ps|-1]) + [Piece(ps[|ps|-1])]
  }

  /** rebuildPairs' builder. */
  method RebuildPairs(ps: seq<Param>) returns (b: string)
    requires AllBytes(ps)
    ensures b == Join(Pieces(ps), '&')
  {
    hide WriteBack, Join;
    b := "";
    JoinNone();
    assert ps[..0] == [];
    for i := 0 to |ps|
      invariant b == Join(Pieces(ps[..i]), '&')
    {
      var p := ps[i];
      assert ps[..i+1] == ps[..i] + [p];
      assert Pieces(ps[..i+1]) == Pieces(ps[..i]) + [Piece(p)];
      JoinMore(Pieces(ps[..i]), Piece(p), '&');
      if i > 0 {
        b := b + ['&'];
      }
      b := b + WriteBack(p.key, p.rawKey);
      if p.valueless {
        assert Piece(p) == WriteBack(p.key, p.rawKey);
        continue;
      }
      Assoc(b, ['='], WriteBack(p.value, p.rawValue));
      b := b + ['='];
      b := b + WriteBack(p.value, p.rawValue);
      assert b == Join(Pieces(ps[..i+1]), '&') by {
        AssocFour(if i > 0 then Join(Pieces(ps[..i]), '&') + ['&'] else "", WriteBack(p.key, p.rawKey), ['='],
                  WriteBack(p.value, p.rawValue));
      }
    }
    assert ps[..|ps|] == ps;
  }

  lemma AssocFour(a: string, b: string, c: string, d: string)
    ensures a + (b + (c + d)) == a + b + c + d
  {
  }

  lemma JoinNone()
    ensures Join([], '&') == ""
  {
  }

  lemma {:induction false} JoinMore(parts: seq<string>, part: string, c: char)
    ensures Join(parts + [part], c) == (if parts == [] then part else Join(parts, c) + [c] + part)
  {
    if |parts| > 0 {
      JoinMore(parts[1..], part, c);
      assert (parts + [part])[0] == parts[0] && (parts + [part])[1..] == parts[1..] + [part];
      if |parts| > 1 {
        AssocFour(parts[0], [c], Join(parts[1..], c), [c] + part);
        Assoc(Join(parts[1..], c), [c], part);
        Assoc(parts[0] + [c] + Join(parts[1..], c), [c], part);
      }
    } else {
      assert parts + [part] == [part];
    }
  }

  // ----- reading -----

  function ReadPair(pair: string): Param {
    var j := CutAt(pair, '=');
    var rawKey := pair[..j];
    var rawValue := if j < |pair| then pair[j+1..] else "";
    var key, value := DecodeOrRaw(rawKey), DecodeOrRaw(rawValue);
    Param(key, if key != rawKey then rawKey else "", value, if value != rawValue then rawValue else "", j == |pair|)
  }

  /** The pairs that are not empty. */
  function ReadEach(parts: seq<string>): seq<Param> {
    if parts == [] then []
    else ReadEach(parts[..|parts|-1]) + (if parts[|parts|-1] == "" then [] else [ReadPair(parts[|parts|-1])])
  }

  function ParsePairs(query: string): seq<Param> { if query == "" then [] else ReadEach(Split(query, '&')) }

  // ----- one piece -----

  /** What a reader of the printed text must find again. */
  predicate SameMeaning(found: Param, wanted: Param) {
    && found.key == wanted.key && found.valueless == wanted.valueless
    && found.value == (if wanted.valueless then "" else wanted.value)
  }

  /** Whether a text is found again once written: always if it is UTF-8; otherwise if its raw form is kept and is the
      text itself, or if it prints as it is. */
  predicate ReadsBack(dec: string, raw: string) {
    || ValidUtf8(dec)
    || (if raw != "" && Unescape(raw) == Some(dec) then raw == dec
        else QuerySafe(dec) && (Unescape(dec).None? || Unescape(dec) == Some(dec)))
  }

  lemma WrittenReadsBackIff(dec: string, raw: string)
    requires Bytes(dec)
    ensures DecodeOrRaw(WriteBack(dec, raw)) == dec <==> ReadsBack(dec, raw)
  {
    UnescapeEncoded(dec);
    EncodedGrows(dec);
    UnescapeShrinks(dec);
    if !QuerySafe(dec) {
      UnsafeGrows(dec);
    }
  }

  /** Text printed without a raw form holds no separator, blank or control character. */
  lemma PrintedIsSafe(dec: string)
    requires Bytes(dec)
    ensures forall c :: c in WriteBack(dec, "") ==> c as int > 0x20 && c as int != 0x7F && c != '&' && c != '#'
  {
    EncodedIsPlain(dec);
    assert forall c :: c in dec ==> exists i :: 0 <= i < |dec| && dec[i] == c;
  }

  /** Text that holds none of these, and neither '%' nor '+', prints as it is; a malformed escape does too; and a raw
      form that still decodes to the text is kept. */
  lemma PrintsAsIs(dec: string, raw: string)
    requires Bytes(dec)
    ensures (forall c :: c in dec ==> c as int > 0x20 && c as int != 0x7F && c !in ['&', '#', '%', '+']) ==>
      WriteBack(dec, "") == dec
    ensures (forall c :: c in dec ==> c as int > 0x20 && c as int != 0x7F && c !in ['&', '#']) ==>
      Unescape(dec).None? ==> WriteBack(dec, "") == dec
    ensures raw != "" && Unescape(raw) == Some(dec) ==> WriteBack(dec, raw) == raw
  {
    UnescapeShrinks(dec);
    assert forall i :: 0 <= i < |dec| ==> dec[i] in dec;
  }

  lemma WrittenLacks(dec: string, raw: string, c: char)
    requires Bytes(dec) && c !in raw && (c == '&' || c == '#')
    ensures c !in WriteBack(dec, raw)
  {
    EncodedIsPlain(dec);
  }

  /** What a parameter must be for its piece, if it is read at all, to be read back as it is. */
  predicate PieceReadsBack(p: Param)
    requires ByteParam(p)
  {
    && '=' !in WrittenKey(p) && ReadsBack(p.key, p.rawKey)
    && (p.valueless || ReadsBack(p.value, p.rawValue))
  }

  lemma PieceReadsBackIff(p: Param)
    requires ByteParam(p)
    ensures SameMeaning(ReadPair(Piece(p)), p) <==> PieceReadsBack(p)
  {
    hide WriteBack, DecodeOrRaw, Unescape, ReadsBack;
    WrittenReadsBackIff(p.key, p.rawKey);
    WrittenReadsBackIff(p.value, p.rawValue);
    if '=' in WrittenKey(p) {
      CutKeyIsShorter(p);
    } else if p.valueless {
      CutNone(WrittenKey(p), '=');
      assert Piece(p) == WrittenKey(p);
      assert Piece(p)[..|WrittenKey(p)|] == WrittenKey(p);
      DecodesNothing();
    } else {
      var written := WriteBack(p.value, p.rawValue);
      Assoc(WrittenKey(p), ['='], written);
      CutJoined(WrittenKey(p), '=', written);
    }
  }

  lemma DecodesNothing()
    ensures DecodeOrRaw("") == ""
  {
  }

  /** A written key with '=' in it is cut short: the reader finds a shorter key. */
  lemma CutKeyIsShorter(p: Param)
    requires ByteParam(p) && '=' in WrittenKey(p)
    ensures !SameMeaning(ReadPair(Piece(p)), p)
  {
    var w := WrittenKey(p);
    var j := CutAt(w, '=');
    CutNone(w, '=');
    CutApart(w, '=');
    var a, b := w[..j], w[j+1..];
    var more := b + (if p.valueless then "" else ['='] + WriteBack(p.value, p.rawValue));
    assert Piece(p) == a + ['='] + more by {
      Assoc(a + ['='], b, if p.valueless then "" else ['='] + WriteBack(p.value, p.rawValue));
    }
    CutJoined(a, '=', more);
    ShorterKey(p.key, p.rawKey, a, b);
  }

  lemma ShorterKey(dec: string, raw: string, a: string, b: string)
    requires Bytes(dec) && WriteBack(dec, raw) == a + ['='] + b && '=' !in a
    ensures DecodeOrRaw(a) != dec
  {
    var w := a + ['='] + b;
    assert w[|a|] == '=';
    if Unescape(w) == Some(dec) {
      UnescapeAround(a, '=', b);
      assert dec[|Unescape(a).value|] == '=';
    } else {
      EncodedIsPlain(dec);
      UnescapeEncoded(dec);
      UnescapeShrinks(a);
    }
  }

  // ----- printing, then reading -----

  ghost predicate SameMeanings(found: seq<Param>, wanted: seq<Param>) {
    |found| == |wanted| && forall i :: 0 <= i < |found| ==> SameMeaning(found[i], wanted[i])
  }

  /** Raw forms hold no '&', as text cut at each '&' does not. */
  ghost predicate Uncut(ps: seq<Param>) {
    forall i :: 0 <= i < |ps| ==> '&' !in ps[i].rawKey && '&' !in ps[i].rawValue
  }

  predicate IsEmptyPair(p: Param) { p.valueless && p.key == "" }

  /** Not an empty pair, its key not written with a bare '=', and key and value read back. */
  predicate SurvivesPrinting(p: Param)
    requires ByteParam(p)
  {
    !IsEmptyPair(p) && PieceReadsBack(p)
  }

  ghost predicate AllSurvive(ps: seq<Param>)
    requires AllBytes(ps)
  {
    forall i :: 0 <= i < |ps| ==> SurvivesPrinting(ps[i])
  }

  lemma PieceIsOne(p: Param)
    requires ByteParam(p) && '&' !in p.rawKey && '&' !in p.rawValue
    ensures '&' !in Piece(p) && (Piece(p) == "" <==> IsEmptyPair(p))
  {
    WrittenLacks(p.key, p.rawKey, '&');
    WrittenLacks(p.value, p.rawValue, '&');
    EncodedIsPlain(p.key);
  }

  lemma {:induction false} ReadEachOne(parts: seq<string>)
    requires forall i :: 0 <= i < |parts| ==> parts[i] != ""
    ensures |ReadEach(parts)| == |parts| && forall i :: 0 <= i < |parts| ==> ReadEach(parts)[i] == ReadPair(parts[i])
  {
    hide ReadPair;
    if parts != [] {
      ReadEachOne(parts[..|parts|-1]);
    }
  }

  lemma JoinedPiecesRead(pieces: seq<string>)
    requires forall piece :: piece in pieces ==> '&' !in piece
    ensures ParsePairs(Join(pieces, '&')) == ReadEach(pieces)
  {
    JoinNone();
    if pieces != [] {
      SplitJoin(pieces, '&');
      if Join(pieces, '&') == "" {
        assert pieces == [""] && pieces[..0] == [];
      }
    }
  }

  lemma PiecesMeanIff(pieces: seq<string>, ps: seq<Param>)
    requires |pieces| == |ps|
    ensures SameMeanings(ReadEach(pieces), ps) <==>
            forall i :: 0 <= i < |ps| ==> pieces[i] != "" && SameMeaning(ReadPair(pieces[i]), ps[i])
  {
    ReadEachFrom(pieces);
    hide ReadEach, ReadPair, SameMeaning;
    if NoneEmpty(pieces) {
      ReadEachOne(pieces);
    }
  }

  /** Printing parameters and reading them again gives the same keys, values and order exactly when each of them
      survives. */
  lemma PrintedReadsBackIff(ps: seq<Param>)
    requires AllBytes(ps) && Uncut(ps)
    ensures
      SameMeanings(ParsePairs(Join(Pieces(ps), '&')), ps) <==> AllSurvive(ps)
  {
    var pieces := Pieces(ps);
    hide Piece, ReadPair, IsEmptyPair, PieceReadsBack, SameMeaning, SameMeanings, Join, Pieces, ReadEach, ParsePairs;
    forall i | 0 <= i < |ps|
      ensures '&' !in pieces[i] && (pieces[i] == "" <==> IsEmptyPair(ps[i]))
      ensures SameMeaning(ReadPair(pieces[i]), ps[i]) <==> PieceReadsBack(ps[i])
    {
      PieceIsOne(ps[i]);
      PieceReadsBackIff(ps[i]);
    }
    JoinedPiecesRead(pieces);
    PiecesMeanIff(pieces, ps);
  }

  /** When a key is written with a bare '=': in its raw form, if that is what is kept; otherwise when the key itself
      holds one and is text that prints as it is. */
  lemma BareEqualsIff(p: Param)
    requires ByteParam(p)
    ensures
      '=' in WrittenKey(p) <==>
      if p.rawKey != "" && Unescape(p.rawKey) == Some(p.key) then '=' in p.rawKey
      else '=' in p.key && QuerySafe(p.key) && (Unescape(p.key).None? || ('%' !in p.key && '+' !in p.key))
  {
    EncodedIsPlain(p.key);
    UnescapeShrinks(p.key);
  }

  /** A key a=b typed in, with the value 1, prints as a=b=1 and reads back as the key a. */
  lemma BareEqualsCutsKey()
    ensures var p := Param("a=b", "", "1", "", false);
      && AllBytes([p]) && Uncut([p]) && Join(Pieces([p]), '&') == "a=b=1"
      && ReadPair("a=b=1").key == "a" && !SameMeanings(ParsePairs("a=b=1"), [p])
  {
    hide *;
    PlainText("a=b");
    PlainText("1");
    PlainText("a");
    assert "a=b"[1] == '=';
    assert "a=b" + ['='] + "1" == "a=b=1" && "a" + ['='] + "b=1" == "a=b=1";
    PairRead("a", "b=1");
    TypedIsLost("a=b", "1", "a=b");
  }

  lemma PairRead(key: string, value: string)
    requires '=' !in key
    ensures ReadPair(key + ['='] + value).key == DecodeOrRaw(key)
    ensures DecodeOrRaw(key) == key && DecodeOrRaw(value) == value ==>
              ReadPair(key + ['='] + value) == Param(key, "", value, "", false)
  {
    CutJoined(key, '=', value);
    hide CutAt, DecodeOrRaw;
  }

  /** A parameter typed in, on its own, that does not survive printing. */
  lemma TypedIsLost(key: string, value: string, written: string)
    requires Bytes(key) && Bytes(value) && WriteBack(key, "") == written && WriteBack(value, "") == value
    requires '=' in written || !ReadsBack(key, "")
    ensures var p := Param(key, "", value, "", false);
      && AllBytes([p]) && Uncut([p]) && Join(Pieces([p]), '&') == written + ['='] + value
      && !SameMeanings(ParsePairs(written + ['='] + value), [p])
  {
    var p := Param(key, "", value, "", false);
    hide WriteBack, Bytes, ReadsBack, SameMeanings, ParsePairs, Join;
    OnePiece(p);
    Assoc(written, ['='], value);
    assert !SurvivesPrinting([p][0]);
    hide SurvivesPrinting;
    PrintedReadsBackIff([p]);
  }

  lemma OnePiece(p: Param)
    requires ByteParam(p)
    ensures AllBytes([p]) && Join(Pieces([p]), '&') == Piece(p)
  {
    assert [p][..0] == [] && Pieces([p]) == [] + [Piece(p)];
  }

  lemma PlainText(s: string)
    requires s == "a=b" || s == "a" || s == "1"
    ensures Bytes(s) && ValidUtf8(s) && DecodeOrRaw(s) == s && WriteBack(s, "") == s
  {
    AsciiIsValid(s);
    UnescapeShrinks(s);
    assert Unescape(s) == Some(s) && QuerySafe(s);
    hide Unescape, ValidUtf8;
  }

  lemma {:induction false} AsciiIsValid(s: string)
    requires forall i :: 0 <= i < |s| ==> s[i] as int < 0x80
    ensures ValidUtf8(s)
  {
    if s != "" {
      AsciiIsValid(s[1..]);
    }
  }

  // ----- reading, then printing -----

  /** A part of a query that prints back byte for byte. */
  predicate Faithful(raw: string) {
    var dec := Unescape(raw);
    if dec.None? then QuerySafe(raw)
    else (ValidUtf8(dec.value) && dec.value != raw) || (dec.value == raw && QuerySafe(raw))
  }

  function KeptRaw(raw: string): string { if DecodeOrRaw(raw) != raw then raw else "" }

  lemma {:induction false} UnescapeBytes(s: string)
    requires Bytes(s)
    ensures Unescape(s).Some? ==> Bytes(Unescape(s).value)
  {
    if s != "" {
      if s[0] == '%' {
        if |s| >= 3 {
          UnescapeBytes(s[3..]);
        }
      } else {
        UnescapeBytes(s[1..]);
      }
    }
  }

  lemma UnsafeGrows(s: string)
    requires Bytes(s) && !QuerySafe(s)
    ensures |EncodeQuery(s)| > |s|
  {
    EncodedGrows(s);
    assert exists i :: 0 <= i < |s| && !Unreserved(s[i]);
  }

  /** A part reads and prints as it was exactly when it is Faithful. */
  lemma FaithfulIff(raw: string)
    requires Bytes(raw)
    ensures Bytes(DecodeOrRaw(raw))
    ensures WriteBack(DecodeOrRaw(raw), KeptRaw(raw)) == raw <==> Faithful(raw)
  {
    UnescapeBytes(raw);
    UnescapeShrinks(raw);
    EncodedGrows(raw);
    if !QuerySafe(raw) {
      UnsafeGrows(raw);
    }
    if Unescape(raw) != Some(raw) {
      assert exists i :: 0 <= i < |raw| && !Unreserved(raw[i]);
    }
  }

  predicate FaithfulPair(pair: string) {
    var j := CutAt(pair, '=');
    Faithful(pair[..j]) && (j == |pair| || Faithful(pair[j+1..]))
  }

  lemma PieceExact(pair: string)
    requires Bytes(pair) && '&' !in pair
    ensures ByteParam(ReadPair(pair)) && '&' !in Piece(ReadPair(pair))
    ensures Piece(ReadPair(pair)) == pair <==> FaithfulPair(pair)
  {
    var p, j := ReadPair(pair), CutAt(pair, '=');
    var rawKey, rawValue := pair[..j], if j < |pair| then pair[j+1..] else "";
    FaithfulIff(rawKey);
    FaithfulIff(rawValue);
    CutApart(pair, '=');
    assert j == |pair| ==> rawKey == pair;
    WrittenLacks(p.key, p.rawKey, '&');
    WrittenLacks(p.value, p.rawValue, '&');
    KeyStaysWhole(rawKey);
    hide WriteBack, Faithful, DecodeOrRaw;
    var k, v := WriteBack(p.key, p.rawKey), WriteBack(p.value, p.rawValue);
    if j < |pair| {
      assert Piece(p) == k + ['='] + v by { Assoc(k, ['='], v); }
      CutJoined(k, '=', v);
      CutJoined(rawKey, '=', rawValue);
    }
  }

  /** A key read from a pair is never written with a bare '='. */
  lemma KeyStaysWhole(raw: string)
    requires Bytes(raw) && '=' !in raw
    ensures Bytes(DecodeOrRaw(raw)) && '=' !in WriteBack(DecodeOrRaw(raw), KeptRaw(raw))
  {
    UnescapeBytes(raw);
    EncodedIsPlain(DecodeOrRaw(raw));
  }

  ghost predicate ReadFrom(p: Param, parts: seq<string>) { exists j :: 0 <= j < |parts| && p == ReadPair(parts[j]) }

  lemma {:induction false} ReadEachFrom(parts: seq<string>)
    ensures forall i :: 0 <= i < |ReadEach(parts)| ==> ReadFrom(ReadEach(parts)[i], parts)
    ensures |ReadEach(parts)| <= |parts|
    ensures (exists i :: 0 <= i < |parts| && parts[i] == "") ==> |ReadEach(parts)| < |parts|
  {
    hide ReadPair;
    if parts != [] {
      var k := |parts| - 1;
      var rest := ReadEach(parts[..k]);
      ReadEachFrom(parts[..k]);
      forall i | 0 <= i < |rest| ensures ReadFrom(rest[i], parts) {
        var j :| 0 <= j < k && rest[i] == ReadPair(parts[..k][j]);
        assert rest[i] == ReadPair(parts[j]);
      }
      if parts[k] != "" {
        assert ReadFrom(ReadPair(parts[k]), parts);
        if i :| 0 <= i < |parts| && parts[i] == "" {
          assert parts[..k][i] == "";
        }
      }
    }
  }

  lemma PiecesOfParts(parts: seq<string>)
    requires forall i :: 0 <= i < |parts| ==> Bytes(parts[i]) && '&' !in parts[i]
    ensures AllBytes(ReadEach(parts))
    ensures forall i :: 0 <= i < |ReadEach(parts)| ==> '&' !in Pieces(ReadEach(parts))[i]
  {
    ReadEachFrom(parts);
    hide ReadPair, Piece, ReadEach;
    var ps := ReadEach(parts);
    forall i | 0 <= i < |ps| ensures ByteParam(ps[i]) && '&' !in Piece(ps[i]) {
      var j :| 0 <= j < |parts| && ps[i] == ReadPair(parts[j]);
      PieceExact(parts[j]);
    }
  }

  lemma SplitBytes(s: string)
    requires Bytes(s)
    ensures forall i :: 0 <= i < |Split(s, '&')| ==> Bytes(Split(s, '&')[i])
    decreases |s|
  {
    var j := CutAt(s, '&');
    if j < |s| {
      SplitBytes(s[j+1..]);
    }
  }

  lemma JoinsBackIff(pieces: seq<string>, query: string)
    requires query != "" && forall i :: 0 <= i < |pieces| ==> '&' !in pieces[i]
    ensures Join(pieces, '&') == query <==> pieces == Split(query, '&')
  {
    JoinSplit(query, '&');
    JoinNone();
    hide Join, Split;
    if pieces != [] {
      SplitJoin(pieces, '&');
    }
  }

  ghost predicate AllFaithful(parts: seq<string>) {
    forall i :: 0 <= i < |parts| ==> parts[i] != "" && FaithfulPair(parts[i])
  }

  ghost predicate NoneEmpty(parts: seq<string>) { forall i :: 0 <= i < |parts| ==> parts[i] != "" }

  lemma FullPiecesSameIff(parts: seq<string>, ps: seq<Param>, pieces: seq<string>)
    requires forall i :: 0 <= i < |parts| ==> Bytes(parts[i]) && '&' !in parts[i]
    requires NoneEmpty(parts) && ps == ReadEach(parts) && AllBytes(ps) && pieces == Pieces(ps)
    ensures pieces == parts <==> AllFaithful(parts)
  {
    ReadEachOne(parts);
    hide Piece, ReadPair, FaithfulPair, ReadEach, Pieces;
    forall i | 0 <= i < |parts| ensures pieces[i] == parts[i] <==> FaithfulPair(parts[i]) {
      PieceExact(parts[i]);
    }
  }

  lemma PiecesSameIff(parts: seq<string>)
    requires forall i :: 0 <= i < |parts| ==> Bytes(parts[i]) && '&' !in parts[i]
    ensures AllBytes(ReadEach(parts)) && (Pieces(ReadEach(parts)) == parts <==> AllFaithful(parts))
  {
    hide Piece, ReadPair, FaithfulPair, ReadEach, Pieces;
    PiecesOfParts(parts);
    ReadEachFrom(parts);
    if NoneEmpty(parts) {
      FullPiecesSameIff(parts, ReadEach(parts), Pieces(ReadEach(parts)));
    }
  }

  /** Reading a query and printing it gives back its bytes exactly when no pair is empty and every part is Faithful. */
  lemma ReadPrintsExactlyIff(query: string)
    requires Bytes(query)
    ensures AllBytes(ParsePairs(query))
    ensures Join(Pieces(ParsePairs(query)), '&') == query <==> query == "" || AllFaithful(Split(query, '&'))
  {
    var parts := Split(query, '&');
    SplitBytes(query);
    JoinNone();
    if query != "" {
      PiecesOfParts(parts);
      PiecesSameIff(parts);
      hide Join, Split, Piece, ReadPair, FaithfulPair, ReadEach, Pieces, AllFaithful;
      JoinsBackIff(Pieces(ReadEach(parts)), query);
    }
  }

  // ----- reading, printing, and reading again -----

  /** A part of a query that is still read the same once read and printed: it decodes to UTF-8, or is UTF-8 as it
      stands, or else prints as it is. */
  predicate StaysRead(raw: string) {
    || ValidUtf8(DecodeOrRaw(raw))
    || (QuerySafe(raw) && (Unescape(raw).None? || Unescape(raw) == Some(raw)))
  }

  predicate PairStaysRead(pair: string) {
    var j := CutAt(pair, '=');
    StaysRead(pair[..j]) && (j == |pair| || StaysRead(pair[j+1..]))
  }

  lemma ReadPartReadsBackIff(raw: string)
    requires Bytes(raw)
    ensures Bytes(DecodeOrRaw(raw)) && (ReadsBack(DecodeOrRaw(raw), KeptRaw(raw)) <==> StaysRead(raw))
  {
    UnescapeBytes(raw);
  }

  lemma ReadPairSurvivesIff(pair: string)
    requires Bytes(pair) && '&' !in pair && pair != ""
    ensures var p := ReadPair(pair);
      && ByteParam(p) && '&' !in p.rawKey && '&' !in p.rawValue
      && (SurvivesPrinting(p) <==> PairStaysRead(pair))
  {
    hide WriteBack, ReadsBack, StaysRead, DecodeOrRaw, Unescape, QuerySafe, ValidUtf8, CutAt;
    var j := CutAt(pair, '=');
    var rawKey, rawValue := pair[..j], if j < |pair| then pair[j+1..] else "";
    ReadPartReadsBackIff(rawKey);
    ReadPartReadsBackIff(rawValue);
    KeyStaysWhole(rawKey);
    if j == |pair| {
      assert rawKey == pair;
      DecodesToSome(pair);
    }
  }

  lemma DecodesToSome(raw: string)
    requires raw != ""
    ensures DecodeOrRaw(raw) != ""
  {
  }

  ghost predicate AllStayRead(parts: seq<string>) {
    forall i :: 0 <= i < |parts| ==> parts[i] == "" || PairStaysRead(parts[i])
  }

  lemma SurvivesMore(ps: seq<Param>, p: Param)
    requires AllBytes(ps) && ByteParam(p)
    ensures AllBytes(ps + [p]) && (AllSurvive(ps + [p]) <==> AllSurvive(ps) && SurvivesPrinting(p))
  {
    hide ByteParam, SurvivesPrinting;
    assert (ps + [p])[|ps|] == p && forall i :: 0 <= i < |ps| ==> (ps + [p])[i] == ps[i];
  }

  lemma {:induction false} PartsSurviveIff(parts: seq<string>)
    requires forall i :: 0 <= i < |parts| ==> Bytes(parts[i]) && '&' !in parts[i]
    ensures AllBytes(ReadEach(parts)) && Uncut(ReadEach(parts))
    ensures AllSurvive(ReadEach(parts)) <==> AllStayRead(parts)
  {
    hide ReadPair, SurvivesPrinting, PairStaysRead, ByteParam;
    if parts != [] {
      var n := |parts| - 1;
      PartsSurviveIff(parts[..n]);
      assert AllStayRead(parts) <==> AllStayRead(parts[..n]) && (parts[n] == "" || PairStaysRead(parts[n])) by {
        assert forall i :: 0 <= i < n ==> parts[..n][i] == parts[i];
      }
      if parts[n] != "" {
        ReadPairSurvivesIff(parts[n]);
        var ps, p := ReadEach(parts[..n]), ReadPair(parts[n]);
        assert ReadEach(parts) == ps + [p];
        SurvivesMore(ps, p);
      } else {
        assert ReadEach(parts) == ReadEach(parts[..n]);
      }
    }
  }

  /** A query read, printed and read again gives the same parameters exactly when each part of each pair StaysRead. */
  lemma ReadAgainIff(query: string)
    requires Bytes(query)
    ensures AllBytes(ParsePairs(query))
    ensures
      SameMeanings(ParsePairs(Join(Pieces(ParsePairs(query)), '&')), ParsePairs(query)) <==>
      AllStayRead(Split(query, '&'))
  {
    hide *;
    SplitBytes(query);
    SplitUncut(query);
    PartsSurviveIff(Split(query, '&'));
    PrintedReadsBackIff(ParsePairs(query));
  }

  lemma SplitUncut(query: string)
    ensures forall i :: 0 <= i < |Split(query, '&')| ==> '&' !in Split(query, '&')[i]
    ensures ParsePairs(query) == ReadEach(Split(query, '&'))
  {
    hide ReadPair;
    if query == "" {
      assert Split(query, '&') == [""] && [""][..0] == [];
    }
  }

  const BYTE_FF := 255 as char

  /** The key is the byte FF and an escaped space, which no UTF-8 text decodes to: it is read as it stands, but printed
      with both encoded, and so read again as another key. */
  lemma NotUtf8IsRewritten()
    ensures var query, p := [BYTE_FF] + "%20=1", Param([BYTE_FF] + "%20", "", "1", "", false);
      && ParsePairs(query) == [p] && AllBytes([p]) && Join(Pieces([p]), '&') == "%FF%2520=1"
      && !SameMeanings(ParsePairs("%FF%2520=1"), [p])
  {
    hide *;
    var key := [BYTE_FF] + "%20";
    KeyIsEncoded();
    PlainText("1");
    assert [BYTE_FF] + "%20=1" == key + ['='] + "1";
    assert "%FF%2520" + ['='] + "1" == "%FF%2520=1";
    PairRead(key, "1");
    OnePart(key + ['='] + "1");
    TypedIsLost(key, "1", "%FF%2520");
  }

  lemma OnePart(pair: string)
    requires pair != "" && '&' !in pair
    ensures ParsePairs(pair) == [ReadPair(pair)]
  {
    hide ReadPair;
    CutNone(pair, '&');
    assert Split(pair, '&') == [pair] by {
      assert pair[..|pair|] == pair;
    }
    assert [pair][..0] == [] && ReadEach([]) == [];
    assert ReadEach([pair]) == [] + [ReadPair(pair)];
  }

  lemma KeyIsEncoded()
    ensures var key := [BYTE_FF] + "%20";
      && Bytes(key) && '=' !in key && '&' !in key + ['='] + "1"
      && DecodeOrRaw(key) == key && WriteBack(key, "") == "%FF%2520" && !ReadsBack(key, "")
  {
    KeyIsNotText();
    KeyEncodes();
    hide Unescape, ValidUtf8, EncodeQuery;
  }

  lemma KeyIsNotText()
    ensures var key := [BYTE_FF] + "%20";
      && !ValidUtf8(key) && Unescape(key).Some? && Unescape(key).value != key && !ValidUtf8(Unescape(key).value)
  {
    var key := [BYTE_FF] + "%20";
    UnescapePlain(BYTE_FF, "%20");
    UnescapeTriple('2', '0', "");
    assert ['%', '2', '0'] + "" == "%20" && Unescape("") == Some("");
    hide Unescape;
    var dec := Unescape(key).value;
    assert dec == [BYTE_FF] + [' '] && key[0] == BYTE_FF && dec[0] == BYTE_FF;
    assert |dec| == 2;
  }

  lemma KeyEncodes()
    ensures var key := [BYTE_FF] + "%20"; Bytes(key) && EncodeQuery(key) == "%FF%2520"
  {
    assert HexDigit(15) == 'F' && HexDigit(2) == '2' && HexDigit(5) == '5';
    assert Bytes("20") && Bytes("%20");
    hide *;
    DigitsEncode();
    assert ['%'] + "20" == "%20" && ['%', '2', '5'] + "20" == "%2520" && ['%', 'F', 'F'] + "%2520" == "%FF%2520";
    EncodeTriple('%', "20", 2, 5);
    EncodeTriple(BYTE_FF, "%20", 15, 15);
  }

  lemma EncodeTriple(c: char, rest: string, h: nat, l: nat)
    requires c as int == 16 * h + l && h < 16 && l < 16 && Bytes(rest) && c != ' ' && !Unreserved(c)
    ensures Bytes([c] + rest) && EncodeQuery([c] + rest) == ['%', HexDigit(h), HexDigit(l)] + EncodeQuery(rest)
  {
    var s := [c] + rest;
    assert s[0] == c && s[1..] == rest;
    EncodeFirst(s);
    hide EncodeQuery;
  }

  lemma DigitsEncode()
    ensures EncodeQuery("20") == "20"
  {
    assert EncodeQuery("") == "";
    hide EncodeQuery;
    assert "20"[1..] == "0" && "0"[1..] == "";
    EncodeFirst("0");
    EncodeFirst("20");
    assert EncodeQuery("20") == "2" + "0";
  }

  /** An escape of a byte no UTF-8 text holds and a space do not print as they were; an escaped space does. */
  lemma UnfaithfulParts()
    ensures !Faithful("%ff") && !Faithful(" ") && Faithful("%20")
  {
    assert Unescape("") == Some("");
    UnescapeTriple('f', 'f', "");
    UnescapeTriple('2', '0', "");
    assert ['%', 'f', 'f'] + "" == "%ff" && ['%', '2', '0'] + "" == "%20";
    assert !ValidUtf8([255 as char]);
    assert ValidUtf8(" ") by { assert RuneLength(" ") == 1; }
    UnescapePlain(' ', "");
    assert [' '] + "" == " ";
  }
}
