/** Drawing passwords: rejection sampling over a stream of random bytes, and the redraw loop around it. */
module PasswordDraw {
  import opened Basics
  import opened Passwords

  type Byte = b: int | 0 <= b < 256 witness 0

  // ----- rejection sampling -----

  predicate Accepts(n: nat, b: Byte)
    requires n > 0
  {
    b < 256 - 256 % n
  }

  /** What accepted bytes stand for, in order. */
  function Picks(alphabet: string, bytes: seq<Byte>): string
    requires alphabet != ""
  {
    if bytes == [] then ""
    else
      var k := |bytes| - 1;
      Picks(alphabet, bytes[..k])
        + (if Accepts(|alphabet|, bytes[k]) then [alphabet[bytes[k] % |alphabet|]] else "")
  }

  lemma {:induction false} PicksGrow(alphabet: string, bytes: seq<Byte>, i: nat)
    requires alphabet != "" && i <= |bytes|
    ensures Picks(alphabet, bytes[..i]) <= Picks(alphabet, bytes)
    ensures |Picks(alphabet, bytes)| <= |Picks(alphabet, bytes[..i])| + |bytes| - i
  {
    if i == |bytes| {
      assert bytes[..i] == bytes;
    } else {
      var k := |bytes| - 1;
      PicksGrow(alphabet, bytes[..k], i);
      assert bytes[..k][..i] == bytes[..i];
    }
  }

  lemma PicksNext(alphabet: string, bytes: seq<Byte>, i: nat)
    requires alphabet != "" && i < |bytes|
    ensures Picks(alphabet, bytes[..i+1]) == Picks(alphabet, bytes[..i])
      + (if Accepts(|alphabet|, bytes[i]) then [alphabet[bytes[i] % |alphabet|]] else "")
  {
    assert bytes[..i+1][..i] == bytes[..i];
  }

  /** Nothing read before the last byte was enough. */
  ghost predicate NoneTooMany(alphabet: string, stream: seq<Byte>, used: nat, length: nat)
    requires alphabet != "" && used <= |stream|
  {
    used > 0 ==> |Picks(alphabet, stream[..used-1])| < length
  }

  lemma NoneTooManyBefore(alphabet: string, stream: seq<Byte>, used: nat, length: nat)
    requires alphabet != "" && used <= |stream| && NoneTooMany(alphabet, stream, used, length)
    ensures forall u :: 0 <= u < used ==> |Picks(alphabet, stream[..u])| < length
  {
    forall u | 0 <= u < used ensures |Picks(alphabet, stream[..u])| < length {
      PicksGrow(alphabet, stream[..used-1], u);
      assert stream[..used-1][..u] == stream[..u];
    }
  }

  /** Drawing w reads exactly these bytes: they give w, and without the last of them it is not whole. */
  ghost predicate DrawnInFull(alphabet: string, length: nat, bytes: seq<Byte>, w: string)
    requires alphabet != ""
  {
    |w| == length && Picks(alphabet, bytes) == w && NoneTooMany(alphabet, bytes, |bytes|, length)
  }

  /** The bytes come from a finite stretch of the random source, None when it runs out. However the loop cuts the stream
      into requests, the result is the first length accepted bytes, and the last byte read is the last one used. */
  method RandomPick(alphabet: string, length: nat, stream: seq<Byte>) returns (r: Option<string>, used: nat)
    requires alphabet != ""
    ensures used <= |stream|
    ensures r.Some? <==> length <= |Picks(alphabet, stream)|
    ensures r.Some? ==> r.value == Picks(alphabet, stream)[..length] && r.value == Picks(alphabet, stream[..used])
    ensures r.Some? ==> forall u :: 0 <= u < used ==> |Picks(alphabet, stream[..u])| < length
    ensures r.Some? ==> DrawnInFull(alphabet, length, stream[..used], r.value)
  {
    var n := |alphabet|;
    var out := "";
    used := 0;
    assert Picks(alphabet, stream[..0]) == "";
    while |out| < length
      invariant used <= |stream| && |out| <= length
      invariant out == Picks(alphabet, stream[..used])
      invariant NoneTooMany(alphabet, stream, used, length)
      decreases |stream| - used
    {
      hide Picks;
      var need := length - |out|;
      if |stream| - used < need {
        PicksGrow(alphabet, stream, used);
        return None, used;
      }
      ghost var had := |out|;
      ghost var start := used;
      for i := 0 to need
        invariant used == start + i
        invariant out == Picks(alphabet, stream[..used])
        invariant |out| <= had + i
        invariant NoneTooMany(alphabet, stream, used, length)
      {
        var b := stream[used];
        PicksNext(alphabet, stream, used);
        if b < 256 - 256 % n {
          out := out + [alphabet[b % n]];
        }
        used := used + 1;
      }
    }
    hide Picks;
    PicksGrow(alphabet, stream, used);
    NoneTooManyBefore(alphabet, stream, used, length);
    assert used > 0 ==> stream[..used][..used-1] == stream[..used-1];
    r := Some(out);
  }

  // ----- every character, and every word, from as many bytes as any other -----

  ghost function BytesFor(alphabet: string, c: char): set<Byte>
    requires alphabet != ""
  {
    set b: Byte | 0 <= b < 256 && Accepts(|alphabet|, b) && alphabet[b % |alphabet|] == c
  }

  predicate Leaves(n: nat, j: nat, b: int)
    requires j < n
  {
    b % n == j
  }

  ghost function Residues(n: nat, j: nat, top: nat): set<Byte>
    requires j < n
  {
    set b: Byte | 0 <= b < 256 && b < top && Leaves(n, j, b)
  }

  lemma DivMod(n: nat, j: nat, q: nat, b: int)
    requires j < n && n * q <= b < n * (q + 1)
    ensures Leaves(n, j, b) <==> b == n * q + j
  {
    assert b == n * (b / n) + b % n;
    MulBelow(n, b / n, q);
    MulBelow(n, q, b / n);
    assert b / n == q;
  }

  lemma {:induction false} MulBelow(n: nat, x: nat, y: nat)
    ensures x < y ==> n * x + n <= n * y
  {
    if x < y {
      MulBelow(n, x, y - 1);
      assert n * y == n * (y - 1) + n;
    }
  }

  lemma {:induction false} ResiduesCount(n: nat, j: nat, q: nat, top: nat)
    requires j < n && top == n * q <= 256
    ensures |Residues(n, j, top)| == q
    decreases q
  {
    if q == 0 {
      assert Residues(n, j, 0) == {};
    } else {
      hide *;
      OneTurn(n, q);
      ResiduesCount(n, j, q - 1, top - n);
      ResidueLast(n, j, q - 1, top - n);
      OneMore(Residues(n, j, top), Residues(n, j, top - n), top - n + j);
    }
  }

  lemma OneTurn(n: nat, q: nat)
    requires q > 0
    ensures n * q == n * (q - 1) + n && 0 <= n * (q - 1)
  {
  }

  lemma ResidueLast(n: nat, j: nat, q: nat, top: nat)
    requires j < n && top == n * q && top + n <= 256
    ensures forall b: Byte :: b in Residues(n, j, top + n) <==> b in Residues(n, j, top) || b == top + j
    ensures top + j !in Residues(n, j, top)
  {
    hide Leaves;
    assert n * (q + 1) == top + n;
    DivMod(n, j, q, top + j);
    forall b: Byte ensures b in Residues(n, j, top + n) <==> b in Residues(n, j, top) || b == top + j {
      if top <= b < top + n {
        DivMod(n, j, q, b);
      }
    }
  }

  /** Rejection leaves every character of an alphabet of at most 256 exactly 256/n bytes. */
  lemma EveryCharacterAlike(alphabet: string, c: char)
    requires Distinct(alphabet) && c in alphabet && |alphabet| <= 256
    ensures |BytesFor(alphabet, c)| == 256 / |alphabet| > 0
  {
    var n := |alphabet|;
    var j :| 0 <= j < n && alphabet[j] == c;
    var q := 256 / n;
    assert 256 - 256 % n == n * q;
    ResiduesCount(n, j, q, n * q);
    assert BytesFor(alphabet, c) == Residues(n, j, n * q);
  }

  /** The byte strings, one byte a character, that are drawn as w. */
  ghost function Draws(alphabet: string, w: string): set<seq<Byte>>
    requires alphabet != ""
  {
    if w == "" then {[]} else Extend(Draws(alphabet, w[..|w|-1]), BytesFor(alphabet, w[|w|-1]))
  }

  lemma {:induction false} DrawsAre(alphabet: string, w: string, bytes: seq<Byte>)
    requires alphabet != ""
    ensures bytes in Draws(alphabet, w) <==> |bytes| == |w| && Picks(alphabet, bytes) == w
  {
    if bytes == [] || w == "" {
      if w != "" {
        ExtendHas(Draws(alphabet, w[..|w|-1]), BytesFor(alphabet, w[|w|-1]), bytes);
      }
    } else {
      var k := |bytes| - 1;
      var x, c := w[..|w|-1], w[|w|-1];
      DrawsAre(alphabet, x, bytes[..k]);
      ExtendHas(Draws(alphabet, x), BytesFor(alphabet, c), bytes);
      hide Extend;
      PicksGrow(alphabet, bytes[..k], 0);
      assert w == x + [c];
      if |bytes| == |w| && Picks(alphabet, bytes) == w {
        assert Accepts(|alphabet|, bytes[k]);
        SnocInjective(Picks(alphabet, bytes[..k]), alphabet[bytes[k] % |alphabet|], x, c);
      }
    }
  }

  /** With no byte rejected, each word comes from (256/n) to the length byte strings. */
  lemma {:induction false} DrawsCount(alphabet: string, w: string)
    requires Distinct(alphabet) && 0 < |alphabet| <= 256 && Over(w, Chars(alphabet))
    ensures |Draws(alphabet, w)| == Pow(256 / |alphabet|, |w|)
  {
    if w != "" {
      var x, c := w[..|w|-1], w[|w|-1];
      DrawsCount(alphabet, x);
      assert c in Chars(alphabet);
      EveryCharacterAlike(alphabet, c);
      ExtendCount(Draws(alphabet, x), BytesFor(alphabet, c));
    }
  }

  // ----- the redraw loop -----

  const MAX_TRIES := 10000

  datatype Drawn = Password(value: string) | TooManyTries | OutOfBytes

  /** Where the redraw loop stands: within a draw, done, given up, or done before the last byte. */
  datatype Point = Drawing(tries: nat, partial: string) | Drew(value: string) | GaveUp | Unread

  function Next(alphabet: string, sets: seq<string>, length: nat, at: Point, b: Byte): Point
    requires alphabet != ""
  {
    match at
    case Drawing(tries, x) =>
      if !Accepts(|alphabet|, b) then at
      else
        var y := x + [alphabet[b % |alphabet|]];
        if |y| < length then Drawing(tries, y)
        else if LacksNone(y, sets) then Drew(y)
        else if tries + 1 == MAX_TRIES then GaveUp
        else Drawing(tries + 1, "")
    case _ => Unread
  }

  /** Where the loop stands after some bytes, one at a time. */
  function After(alphabet: string, sets: seq<string>, length: nat, bytes: seq<Byte>): Point
    requires alphabet != ""
  {
    if bytes == [] then Drawing(0, "")
    else
      var k := |bytes| - 1;
      Next(alphabet, sets, length, After(alphabet, sets, length, bytes[..k]), bytes[k])
  }

  /** A draw not yet whole, from where the loop stood. */
  lemma {:induction false} AfterPart(alphabet: string, sets: seq<string>, length: nat, before: seq<Byte>,
                                     bytes: seq<Byte>)
    requires alphabet != "" && After(alphabet, sets, length, before).Drawing?
    requires After(alphabet, sets, length, before).partial == "" && |Picks(alphabet, bytes)| < length
    ensures After(alphabet, sets, length, before + bytes) ==
            Drawing(After(alphabet, sets, length, before).tries, Picks(alphabet, bytes))
  {
    if bytes == [] {
      assert before + bytes == before;
    } else {
      var k := |bytes| - 1;
      PicksGrow(alphabet, bytes, k);
      AfterPart(alphabet, sets, length, before, bytes[..k]);
      assert (before + bytes)[..|before| + k] == before + bytes[..k];
    }
  }

  /** A whole draw. */
  lemma AfterDraw(alphabet: string, sets: seq<string>, length: nat, before: seq<Byte>, bytes: seq<Byte>, w: string)
    requires alphabet != "" && length > 0 && After(alphabet, sets, length, before).Drawing?
    requires After(alphabet, sets, length, before).partial == "" && DrawnInFull(alphabet, length, bytes, w)
    ensures After(alphabet, sets, length, before + bytes) ==
            (if LacksNone(w, sets) then Drew(w)
             else if After(alphabet, sets, length, before).tries + 1 == MAX_TRIES then GaveUp
             else Drawing(After(alphabet, sets, length, before).tries + 1, ""))
  {
    var k := |bytes| - 1;
    assert bytes != [];
    AfterPart(alphabet, sets, length, before, bytes[..k]);
    assert (before + bytes)[..|before| + k] == before + bytes[..k];
    hide LacksNone;
  }

  /** Redraws whole words until one lacks no set. The loop stands where After says, and so gives a password back with
      the last byte of the stream exactly when After says so. */
  method DrawPassword(alphabet: string, sets: seq<string>, length: nat, stream: seq<Byte>)
    returns (r: Drawn, used: nat)
    requires alphabet != "" && length > 0
    ensures used <= |stream|
    ensures sets == [] ==> r == Password("") && used == 0
    ensures sets != [] && r.Password? ==> After(alphabet, sets, length, stream[..used]) == Drew(r.value)
    ensures sets != [] && r.TooManyTries? ==> After(alphabet, sets, length, stream[..used]) == GaveUp
    ensures sets != [] && r.OutOfBytes? ==> After(alphabet, sets, length, stream).Drawing?
    ensures sets != [] ==>
      forall w :: After(alphabet, sets, length, stream) == Drew(w) <==> r == Password(w) && used == |stream|
  {
    var v := "";
    var tries := 0;
    used := 0;
    assert stream[..0] == [];
    assert sets != [] ==> !Holds("", sets[0]);
    hide LacksNone, DrawnInFull, Next;
    while !LacksNone(v, sets)
      invariant used <= |stream| && tries <= MAX_TRIES
      invariant tries == 0 ==> v == "" && used == 0
      invariant tries > 0 ==> sets != []
      invariant sets != [] ==>
        After(alphabet, sets, length, stream[..used]) ==
        if LacksNone(v, sets) then Drew(v) else if tries == MAX_TRIES then GaveUp else Drawing(tries, "")
      decreases MAX_TRIES - tries
    {
      if tries == MAX_TRIES {
        Ended(alphabet, sets, length, stream, used);
        return TooManyTries, used;
      }
      var o, n := RandomPick(alphabet, length, stream[used..]);
      if o.None? {
        AfterPart(alphabet, sets, length, stream[..used], stream[used..]);
        assert stream[..used] + stream[used..] == stream;
        return OutOfBytes, used;
      }
      AfterDraw(alphabet, sets, length, stream[..used], stream[used..][..n], o.value);
      assert stream[..used] + stream[used..][..n] == stream[..used + n];
      v := o.value;
      used := used + n;
      tries := tries + 1;
    }
    if sets != [] {
      Ended(alphabet, sets, length, stream, used);
    }
    r := Password(v);
  }

  /** Bytes beyond the end of the loop are not read. */
  lemma {:induction false} Ended(alphabet: string, sets: seq<string>, length: nat, stream: seq<Byte>, used: nat)
    requires alphabet != "" && used <= |stream| && !After(alphabet, sets, length, stream[..used]).Drawing?
    ensures After(alphabet, sets, length, stream) ==
            if used == |stream| then After(alphabet, sets, length, stream[..used]) else Unread
  {
    if used == |stream| {
      assert stream[..used] == stream;
    } else {
      var k := |stream| - 1;
      assert stream[..k][..used] == stream[..used];
      Ended(alphabet, sets, length, stream[..k], used);
    }
  }

  /** A password has the length, comes from the alphabet and lacks no set. */
  lemma {:induction false} DrewIsAllowed(alphabet: string, sets: seq<string>, length: nat, bytes: seq<Byte>)
    requires alphabet != "" && length > 0
    ensures match After(alphabet, sets, length, bytes)
            case Drawing(tries, x) => tries < MAX_TRIES && |x| < length && Over(x, Chars(alphabet))
            case Drew(w) => |w| == length && Over(w, Chars(alphabet)) && LacksNone(w, sets)
            case _ => true
  {
    hide LacksNone;
    if bytes != [] {
      DrewIsAllowed(alphabet, sets, length, bytes[..|bytes|-1]);
    }
  }

  // ----- every password from as many streams as any other -----

  ghost function BytesBelow(k: nat): (r: set<Byte>)
    requires k <= 256
    ensures forall b: Byte :: b in r <==> b < k
  {
    if k == 0 then {} else BytesBelow(k - 1) + {k - 1}
  }

  ghost function Streams(m: nat): set<seq<Byte>> {
    if m == 0 then {[]} else Extend(Streams(m - 1), BytesBelow(256))
  }

  lemma {:induction false} StreamsAre(m: nat, s: seq<Byte>)
    ensures s in Streams(m) <==> |s| == m
  {
    if m > 0 {
      ExtendHas(Streams(m - 1), BytesBelow(256), s);
      hide Extend;
      if s != [] {
        StreamsAre(m - 1, s[..|s|-1]);
      }
    }
  }

  /** The streams of one length that leave the loop within a draw, with x drawn so far. */
  ghost function Leading(alphabet: string, sets: seq<string>, length: nat, x: string, m: nat): set<seq<Byte>>
    requires alphabet != ""
  {
    set s | s in Streams(m) && InDraw(After(alphabet, sets, length, s), x)
  }

  predicate InDraw(at: Point, x: string) { at.Drawing? && at.partial == x }

  /** The streams of one length that the loop reads to the end and gives w back for. */
  ghost function Giving(alphabet: string, sets: seq<string>, length: nat, w: string, m: nat): set<seq<Byte>>
    requires alphabet != ""
  {
    set s | s in Streams(m) && After(alphabet, sets, length, s) == Drew(w)
  }

  ghost function RejectedBytes(n: nat): set<Byte>
    requires n > 0
  {
    set b: Byte | 0 <= b < 256 && !Accepts(n, b)
  }

  /** Within a draw, the last byte was rejected or gave the last character. */
  lemma LeadingStep(alphabet: string, sets: seq<string>, length: nat, x: string, m: nat, s: seq<Byte>)
    requires alphabet != "" && 0 < |x| < length && m > 0
    ensures s in Leading(alphabet, sets, length, x, m) <==>
            || s in Extend(Leading(alphabet, sets, length, x, m - 1), RejectedBytes(|alphabet|))
            || s in Extend(Leading(alphabet, sets, length, x[..|x|-1], m - 1), BytesFor(alphabet, x[|x|-1]))
    ensures !(&& s in Extend(Leading(alphabet, sets, length, x, m - 1), RejectedBytes(|alphabet|))
              && s in Extend(Leading(alphabet, sets, length, x[..|x|-1], m - 1), BytesFor(alphabet, x[|x|-1])))
  {
    var init, c := x[..|x|-1], x[|x|-1];
    assert x == init + [c];
    StreamsAre(m, s);
    ExtendHas(Leading(alphabet, sets, length, x, m - 1), RejectedBytes(|alphabet|), s);
    ExtendHas(Leading(alphabet, sets, length, init, m - 1), BytesFor(alphabet, c), s);
    hide Extend, LacksNone, Streams;
    if s != [] {
      StreamsAre(m - 1, s[..|s|-1]);
      var at := After(alphabet, sets, length, s[..|s|-1]);
      if at.Drawing? && Accepts(|alphabet|, s[|s|-1]) && at.partial + [alphabet[s[|s|-1] % |alphabet|]] == x {
        SnocInjective(at.partial, alphabet[s[|s|-1] % |alphabet|], init, c);
      }
    }
  }

  /** Streams of one length reach any two starts of one length as often. */
  lemma {:induction false} LeadingAlike(alphabet: string, sets: seq<string>, length: nat, x: string, y: string, m: nat)
    requires Distinct(alphabet) && 0 < |alphabet| <= 256 && |x| == |y| < length
    requires Over(x, Chars(alphabet)) && Over(y, Chars(alphabet))
    ensures |Leading(alphabet, sets, length, x, m)| == |Leading(alphabet, sets, length, y, m)|
  {
    hide *;
    if x != "" && m > 0 {
      OverInit(x, Chars(alphabet));
      OverInit(y, Chars(alphabet));
      LeadingAlike(alphabet, sets, length, x, y, m - 1);
      LeadingAlike(alphabet, sets, length, x[..|x|-1], y[..|y|-1], m - 1);
      LeadingCount(alphabet, sets, length, x, m);
      LeadingCount(alphabet, sets, length, y, m);
    } else if x != "" {
      NoneAtFirst(alphabet, sets, length, x);
      NoneAtFirst(alphabet, sets, length, y);
    } else {
      assert x == y;
    }
  }

  lemma OverInit(x: string, abc: set<char>)
    requires x != "" && Over(x, abc)
    ensures Over(x[..|x|-1], abc) && x[|x|-1] in abc
  {
  }

  lemma NoneAtFirst(alphabet: string, sets: seq<string>, length: nat, x: string)
    requires alphabet != "" && x != ""
    ensures Leading(alphabet, sets, length, x, 0) == {} && Giving(alphabet, sets, length, x, 0) == {}
  {
  }

  lemma LeadingCount(alphabet: string, sets: seq<string>, length: nat, x: string, m: nat)
    requires Distinct(alphabet) && 0 < |alphabet| <= 256 && 0 < |x| < length && m > 0
    requires Over(x, Chars(alphabet))
    ensures |Leading(alphabet, sets, length, x, m)| ==
            |Leading(alphabet, sets, length, x, m - 1)| * |RejectedBytes(|alphabet|)| +
            |Leading(alphabet, sets, length, x[..|x|-1], m - 1)| * (256 / |alphabet|)
  {
    var c := x[|x|-1];
    assert c in Chars(alphabet);
    EveryCharacterAlike(alphabet, c);
    var stay, step := Leading(alphabet, sets, length, x, m - 1), Leading(alphabet, sets, length, x[..|x|-1], m - 1);
    ExtendCount(stay, RejectedBytes(|alphabet|));
    ExtendCount(step, BytesFor(alphabet, c));
    forall s
      ensures s in Leading(alphabet, sets, length, x, m) <==>
              s in Extend(stay, RejectedBytes(|alphabet|)) || s in Extend(step, BytesFor(alphabet, c))
      ensures !(s in Extend(stay, RejectedBytes(|alphabet|)) && s in Extend(step, BytesFor(alphabet, c)))
    {
      LeadingStep(alphabet, sets, length, x, m, s);
    }
    hide *;
    DisjointSum(Leading(alphabet, sets, length, x, m), Extend(stay, RejectedBytes(|alphabet|)),
                Extend(step, BytesFor(alphabet, c)));
  }

  lemma GivingStep(alphabet: string, sets: seq<string>, length: nat, w: string, m: nat, s: seq<Byte>)
    requires alphabet != "" && |w| == length > 0 && LacksNone(w, sets) && m > 0
    ensures s in Giving(alphabet, sets, length, w, m) <==>
            s in Extend(Leading(alphabet, sets, length, w[..|w|-1], m - 1), BytesFor(alphabet, w[|w|-1]))
  {
    var init, c := w[..|w|-1], w[|w|-1];
    assert w == init + [c];
    StreamsAre(m, s);
    ExtendHas(Leading(alphabet, sets, length, init, m - 1), BytesFor(alphabet, c), s);
    hide Extend, LacksNone, Streams;
    if s != [] {
      StreamsAre(m - 1, s[..|s|-1]);
      var at := After(alphabet, sets, length, s[..|s|-1]);
      if at.Drawing? && Accepts(|alphabet|, s[|s|-1]) && at.partial + [alphabet[s[|s|-1] % |alphabet|]] == w {
        SnocInjective(at.partial, alphabet[s[|s|-1] % |alphabet|], init, c);
      }
    }
  }

  /** No password that lacks no set is likelier than another: of the streams of any one length, as many give it back,
      read to the end, however many bytes and whole draws were rejected on the way. */
  lemma EveryPasswordAlike(alphabet: string, sets: seq<string>, w: string, v: string, m: nat)
    requires Distinct(alphabet) && 0 < |alphabet| <= 256 && |w| == |v|
    requires Over(w, Chars(alphabet)) && Over(v, Chars(alphabet))
    requires LacksNone(w, sets) && LacksNone(v, sets)
    ensures |Giving(alphabet, sets, |w|, w, m)| == |Giving(alphabet, sets, |w|, v, m)|
  {
    hide *;
    if w == "" {
      assert w == v;
    } else if m > 0 {
      OverInit(w, Chars(alphabet));
      OverInit(v, Chars(alphabet));
      LeadingAlike(alphabet, sets, |w|, w[..|w|-1], v[..|v|-1], m - 1);
      GivingCount(alphabet, sets, w, m);
      GivingCount(alphabet, sets, v, m);
    } else {
      NoneAtFirst(alphabet, sets, |w|, w);
      NoneAtFirst(alphabet, sets, |w|, v);
    }
  }

  lemma GivingCount(alphabet: string, sets: seq<string>, w: string, m: nat)
    requires Distinct(alphabet) && 0 < |alphabet| <= 256 && w != "" && m > 0
    requires Over(w, Chars(alphabet)) && LacksNone(w, sets)
    ensures |Giving(alphabet, sets, |w|, w, m)| ==
            |Leading(alphabet, sets, |w|, w[..|w|-1], m - 1)| * (256 / |alphabet|)
  {
    var c := w[|w|-1];
    assert c in Chars(alphabet);
    EveryCharacterAlike(alphabet, c);
    var step := Leading(alphabet, sets, |w|, w[..|w|-1], m - 1);
    ExtendCount(step, BytesFor(alphabet, c));
    assert Giving(alphabet, sets, |w|, w, m) == Extend(step, BytesFor(alphabet, c)) by {
      forall s ensures s in Giving(alphabet, sets, |w|, w, m) <==> s in Extend(step, BytesFor(alphabet, c)) {
        GivingStep(alphabet, sets, |w|, w, m, s);
      }
    }
  }

  // ----- one draw on its own -----

  /** Asked for no set, the loop is one call of randomPick. */
  lemma {:induction false} OneDraw(alphabet: string, length: nat, bytes: seq<Byte>)
    requires alphabet != "" && length > 0
    ensures var at := After(alphabet, [], length, bytes);
      && (at.Drawing? ==> at == Drawing(0, Picks(alphabet, bytes)) && |Picks(alphabet, bytes)| < length)
      && forall w :: at == Drew(w) <==> DrawnInFull(alphabet, length, bytes, w)
  {
    if bytes != [] {
      var k := |bytes| - 1;
      OneDraw(alphabet, length, bytes[..k]);
      PicksGrow(alphabet, bytes, k);
      if |Picks(alphabet, bytes[..k])| < length {
        AfterPart(alphabet, [], length, [], bytes[..k]);
        assert [] + bytes[..k] == bytes[..k];
      }
    }
  }

  /** The streams of one length that randomPick reads to the end, drawing w. */
  ghost function Drawings(alphabet: string, w: string, m: nat): set<seq<Byte>>
    requires alphabet != ""
  {
    set s | s in Streams(m) && DrawnInFull(alphabet, |w|, s, w)
  }

  /** No word of a length is likelier than another: of the streams of any one length, as many are read to the end to
      draw it, wherever the rejected bytes lie. */
  lemma EveryWordAlike(alphabet: string, w: string, v: string, m: nat)
    requires Distinct(alphabet) && 0 < |alphabet| <= 256 && |w| == |v|
    requires Over(w, Chars(alphabet)) && Over(v, Chars(alphabet))
    ensures |Drawings(alphabet, w, m)| == |Drawings(alphabet, v, m)|
  {
    if w != "" {
      EveryPasswordAlike(alphabet, [], w, v, m);
      DrawingIsGiving(alphabet, w, m);
      DrawingIsGiving(alphabet, v, m);
    }
  }

  lemma DrawingIsGiving(alphabet: string, w: string, m: nat)
    requires alphabet != "" && w != ""
    ensures Drawings(alphabet, w, m) == Giving(alphabet, [], |w|, w, m)
  {
    hide DrawnInFull, After;
    forall s ensures s in Drawings(alphabet, w, m) <==> s in Giving(alphabet, [], |w|, w, m) {
      OneDraw(alphabet, |w|, s);
    }
  }
}
