/** Taking tracking parameters out of a link without touching any other byte of it. */
module QueryClean {
  import opened Basics
  import opened TextCuts
  import opened QueryText

  // ----- the parts of a link -----

  datatype Parts = Parts(prefix: string, query: string, frag: string, hasQuery: bool, hasFrag: bool)

  /** The fragment is cut first: a '?' after '#' is part of it. */
  function SplitParts(raw: string): Parts {
    var h := CutAt(raw, '#');
    var base := raw[..h];
    var q := CutAt(base, '?');
    Parts(base[..q], if q < |base| then base[q+1..] else "", if h < |raw| then raw[h+1..] else "",
          q < |base|, h < |raw|)
  }

  function Assembled(p: Parts): string {
    p.prefix + (if p.hasQuery then ['?'] + p.query else "") + (if p.hasFrag then ['#'] + p.frag else "")
  }

  /** What cutting can give. */
  predicate Cut(p: Parts) {
    && '#' !in p.prefix && '?' !in p.prefix && '#' !in p.query
    && (!p.hasQuery ==> p.query == "") && (!p.hasFrag ==> p.frag == "")
  }

  lemma CutPart(s: string, c: char)
    ensures var j := CutAt(s, c);
      && (j == |s| ==> s[..j] == s) && (j < |s| ==> s == s[..j] + ([c] + s[j+1..]))
  {
    CutApart(s, c);
    hide CutAt;
    var j := CutAt(s, c);
    assert s[..|s|] == s;
    if j < |s| {
      Assoc(s[..j], [c], s[j+1..]);
    }
  }

  lemma SplitPartsAssemble(raw: string)
    ensures Assembled(SplitParts(raw)) == raw
  {
    hide CutAt;
    var base := raw[..CutAt(raw, '#')];
    CutPart(raw, '#');
    CutPart(base, '?');
    var p := SplitParts(raw);
    assert p.prefix + (if p.hasQuery then ['?'] + p.query else "") == base;
    assert base + (if p.hasFrag then ['#'] + p.frag else "") == raw;
  }

  lemma SplitPartsCut(raw: string)
    ensures Cut(SplitParts(raw))
  {
    var base := raw[..CutAt(raw, '#')];
    var q := CutAt(base, '?');
    assert forall i :: 0 <= i < |base| ==> base[i] != '#';
    assert forall i :: 0 <= i < q ==> base[..q][i] == base[i];
    hide CutAt;
  }

  lemma SplitPartsIs(raw: string)
    ensures Cut(SplitParts(raw)) && Assembled(SplitParts(raw)) == raw
  {
    hide *;
    SplitPartsCut(raw);
    SplitPartsAssemble(raw);
  }

  lemma PartsOfAssembled(p: Parts)
    requires Cut(p)
    ensures SplitParts(Assembled(p)) == p
  {
    var base := p.prefix + (if p.hasQuery then ['?'] + p.query else "");
    var raw := Assembled(p);
    if p.hasQuery {
      Assoc(p.prefix, ['?'], p.query);
      CutJoined(p.prefix, '?', p.query);
    } else {
      assert base == p.prefix;
      CutNone(base, '?');
    }
    assert '#' !in base;
    if p.hasFrag {
      Assoc(base, ['#'], p.frag);
      CutJoined(base, '#', p.frag);
    } else {
      assert raw == base;
      CutNone(raw, '#');
    }
  }

  // ----- pairs, as written -----

  /** key and value are decoded copies, to match on and to show. */
  datatype Pair = Pair(raw: string, key: string, value: string)

  function PairOf(part: string): Pair {
    var j := CutAt(part, '=');
    Pair(part, DecodeOrRaw(part[..j]), DecodeOrRaw(if j < |part| then part[j+1..] else ""))
  }

  /** The key is decoded from what stands before the first '=', and the value from what follows. */
  lemma PairOfCut(key: string, value: string)
    requires '=' !in key
    ensures PairOf(key + ['='] + value) == Pair(key + ['='] + value, DecodeOrRaw(key), DecodeOrRaw(value))
    ensures PairOf(key) == Pair(key, DecodeOrRaw(key), "")
  {
    CutJoined(key, '=', value);
    CutNone(key, '=');
    assert key[..|key|] == key && DecodeOrRaw("") == "";
    hide CutAt, DecodeOrRaw;
  }

  function PairsOf(parts: seq<string>): (ps: seq<Pair>)
    ensures |ps| == |parts| && forall i :: 0 <= i < |parts| ==> ps[i] == PairOf(parts[i])
  {
    if parts == [] then [] else PairsOf(parts[..|parts|-1]) + [PairOf(parts[|parts|-1])]
  }

  function SplitRawPairs(query: string): seq<Pair> { if query == "" then [] else PairsOf(Split(query, '&')) }

  function Raws(ps: seq<Pair>): (parts: seq<string>)
    ensures |parts| == |ps| && forall i :: 0 <= i < |ps| ==> parts[i] == ps[i].raw
  {
    if ps == [] then [] else Raws(ps[..|ps|-1]) + [ps[|ps|-1].raw]
  }

  function JoinRawPairs(ps: seq<Pair>): string { Join(Raws(ps), '&') }

  /** Pairs some query could have been split into. */
  ghost predicate Written(ps: seq<Pair>) {
    forall i :: 0 <= i < |ps| ==> ps[i] == PairOf(ps[i].raw) && '&' !in ps[i].raw && '#' !in ps[i].raw
  }

  lemma RawOfPairs(parts: seq<string>)
    ensures Raws(PairsOf(parts)) == parts
  {
    hide PairsOf, Raws;
    assert forall i :: 0 <= i < |parts| ==> Raws(PairsOf(parts))[i] == PairOf(parts[i]).raw;
  }

  lemma PairsOfParts(parts: seq<string>)
    requires forall p :: p in parts ==> '&' !in p && '#' !in p
    ensures Written(PairsOf(parts))
  {
    hide DecodeOrRaw, CutAt, PairsOf;
    forall i | 0 <= i < |parts|
      ensures PairOf(PairOf(parts[i]).raw) == PairOf(parts[i]) && PairOf(parts[i]).raw in parts
    {
    }
    hide PairOf;
  }

  lemma PairsAreWritten(query: string)
    requires '#' !in query
    ensures Written(SplitRawPairs(query)) && JoinRawPairs(SplitRawPairs(query)) == query
  {
    if query != "" {
      var parts := Split(query, '&');
      SplitLacks(query, '&', '#');
      JoinSplit(query, '&');
      hide PairsOf, Raws, Split, Join, PairOf, Written;
      RawOfPairs(parts);
      PairsOfParts(parts);
    }
  }

  /** Splitting what was joined gives the pairs back, unless what was joined was a single empty pair. */
  lemma PairsOfJoined(ps: seq<Pair>)
    requires Written(ps)
    ensures '#' !in JoinRawPairs(ps)
    ensures JoinRawPairs(ps) == "" <==> ps == [] || (|ps| == 1 && ps[0].raw == "")
    ensures JoinRawPairs(ps) != "" ==> SplitRawPairs(JoinRawPairs(ps)) == ps
  {
    hide PairOf;
    var parts := Raws(ps);
    if ps != [] {
      SplitJoin(parts, '&');
      JoinLacks(parts, '&', '#');
      assert PairsOf(parts) == ps;
      JoinEmptyIff(parts);
    }
  }

  lemma JoinEmptyIff(parts: seq<string>)
    requires parts != []
    ensures Join(parts, '&') == "" <==> parts == [""]
  {
    assert |parts| > 1 ==> Join(parts, '&')[|parts[0]|] == '&';
  }

  // ----- signed links -----

  datatype Scheme = S3V4 | GoogleCloud | S3V2 | CloudFront | AzureSAS

  const AMZ := "x-amz-"
  const GOOG := "x-goog-"

  predicate HasKey(lower: string -> string, ps: seq<Pair>, name: string) {
    exists i :: 0 <= i < |ps| && lower(ps[i].key) == name
  }

  predicate HasPrefix(lower: string -> string, ps: seq<Pair>, prefix: string) {
    exists i :: 0 <= i < |ps| && prefix <= lower(ps[i].key)
  }

  /** Whether a signature covers the other parameters. */
  predicate Signed(lower: string -> string, ps: seq<Pair>) {
    || HasPrefix(lower, ps, AMZ) || HasPrefix(lower, ps, GOOG)
    || (HasKey(lower, ps, "signature")
        && (HasKey(lower, ps, "awsaccesskeyid") || HasKey(lower, ps, "key-pair-id") || HasKey(lower, ps, "policy")))
    || (HasKey(lower, ps, "sig") && HasKey(lower, ps, "sv"))
  }

  /** Taking pairs away never makes a link look signed. */
  lemma SignedIsMonotone(lower: string -> string, fewer: seq<Pair>, more: seq<Pair>)
    requires forall q :: q in fewer ==> q in more
    ensures Signed(lower, fewer) ==> Signed(lower, more)
  {
    forall name ensures HasKey(lower, fewer, name) ==> HasKey(lower, more, name) {
      if i :| 0 <= i < |fewer| && lower(fewer[i].key) == name {
        assert fewer[i] in more;
      }
    }
    forall prefix ensures HasPrefix(lower, fewer, prefix) ==> HasPrefix(lower, more, prefix) {
      if i :| 0 <= i < |fewer| && prefix <= lower(fewer[i].key) {
        assert fewer[i] in more;
      }
    }
  }

  /** What the first key with a vendor's prefix names. */
  function PrefixScheme(lower: string -> string, ps: seq<Pair>): Option<Scheme> {
    if ps == [] then None
    else
      var before, k := PrefixScheme(lower, ps[..|ps|-1]), lower(ps[|ps|-1].key);
      if before.Some? then before else if AMZ <= k then Some(S3V4) else if GOOG <= k then Some(GoogleCloud) else None
  }

  function SchemeOf(lower: string -> string, ps: seq<Pair>): Option<Scheme> {
    if PrefixScheme(lower, ps).Some? then PrefixScheme(lower, ps)
    else if HasKey(lower, ps, "signature") && HasKey(lower, ps, "awsaccesskeyid") then Some(S3V2)
    else if HasKey(lower, ps, "signature") && (HasKey(lower, ps, "key-pair-id") || HasKey(lower, ps, "policy")) then
      Some(CloudFront)
    else if HasKey(lower, ps, "sig") && HasKey(lower, ps, "sv") then Some(AzureSAS)
    else None
  }

  lemma {:induction false} PrefixSchemeIff(lower: string -> string, ps: seq<Pair>)
    ensures PrefixScheme(lower, ps).Some? <==> HasPrefix(lower, ps, AMZ) || HasPrefix(lower, ps, GOOG)
  {
    if ps != [] {
      PrefixSchemeIff(lower, ps[..|ps|-1]);
      KeysGrow(lower, ps, |ps| - 1);
      assert ps[..|ps|] == ps;
      hide HasPrefix;
    }
  }

  /** A scheme is named exactly when the link is signed. */
  lemma SchemeIffSigned(lower: string -> string, ps: seq<Pair>)
    ensures SchemeOf(lower, ps).Some? <==> Signed(lower, ps)
  {
    PrefixSchemeIff(lower, ps);
    hide HasPrefix, HasKey, PrefixScheme;
  }

  method LooksSigned(lower: string -> string, ps: seq<Pair>) returns (scheme: Option<Scheme>)
    ensures scheme == SchemeOf(lower, ps)
  {
    hide HasKey;
    var has: set<string> := {};
    NoKeys(lower);
    for i := 0 to |ps|
      invariant forall name :: name in has <==> HasKey(lower, ps[..i], name)
      invariant PrefixScheme(lower, ps[..i]).None?
    {
      var k := lower(ps[i].key);
      KeysGrow(lower, ps, i);
      PrefixNext(lower, ps, i);
      has := has + {k};
      if AMZ <= k {
        PrefixStays(lower, ps, i + 1);
        return Some(S3V4);
      }
      if GOOG <= k {
        PrefixStays(lower, ps, i + 1);
        return Some(GoogleCloud);
      }
    }
    assert ps[..|ps|] == ps;
    scheme :=
      if "signature" in has && "awsaccesskeyid" in has then Some(S3V2)
      else if "signature" in has && ("key-pair-id" in has || "policy" in has) then Some(CloudFront)
      else if "sig" in has && "sv" in has then Some(AzureSAS)
      else None;
  }

  lemma NoKeys(lower: string -> string)
    ensures forall name :: !HasKey(lower, [], name)
  {
  }

  lemma PrefixNext(lower: string -> string, ps: seq<Pair>, i: nat)
    requires i < |ps| && PrefixScheme(lower, ps[..i]).None?
    ensures var k := lower(ps[i].key);
      PrefixScheme(lower, ps[..i+1]) == if AMZ <= k then Some(S3V4) else if GOOG <= k then Some(GoogleCloud) else None
  {
    assert ps[..i+1][..i] == ps[..i];
  }

  lemma {:induction false} PrefixStays(lower: string -> string, ps: seq<Pair>, i: nat)
    requires i <= |ps| && PrefixScheme(lower, ps[..i]).Some?
    ensures PrefixScheme(lower, ps) == PrefixScheme(lower, ps[..i])
  {
    if i == |ps| {
      assert ps[..i] == ps;
    } else {
      assert ps[..|ps|-1][..i] == ps[..i];
      PrefixStays(lower, ps[..|ps|-1], i);
    }
  }

  lemma KeysGrow(lower: string -> string, ps: seq<Pair>, i: nat)
    requires i < |ps|
    ensures forall name :: HasKey(lower, ps[..i+1], name) <==> HasKey(lower, ps[..i], name) || name == lower(ps[i].key)
    ensures forall prefix ::
      HasPrefix(lower, ps[..i+1], prefix) <==> HasPrefix(lower, ps[..i], prefix) || prefix <= lower(ps[i].key)
  {
    var less, more := ps[..i], ps[..i+1];
    assert more == less + [ps[i]] && more[i] == ps[i];
    forall name ensures HasKey(lower, more, name) <==> HasKey(lower, less, name) || name == lower(ps[i].key) {
      if k :| 0 <= k < i && lower(less[k].key) == name {
        assert more[k] == less[k];
      }
    }
    forall prefix
      ensures HasPrefix(lower, more, prefix) <==> HasPrefix(lower, less, prefix) || prefix <= lower(ps[i].key)
    {
      if k :| 0 <= k < i && prefix <= lower(less[k].key) {
        assert more[k] == less[k];
      }
    }
  }

  // ----- keeping and removing -----

  /** rest is list with removed taken out of it, order kept. */
  ghost predicate Interleaves(list: seq<Pair>, kept: seq<Pair>, removed: seq<Pair>) {
    if list == [] then kept == [] && removed == []
    else
      var k := |list| - 1;
      || (kept != [] && kept[|kept|-1] == list[k] && Interleaves(list[..k], kept[..|kept|-1], removed))
      || (removed != [] && removed[|removed|-1] == list[k] && Interleaves(list[..k], kept, removed[..|removed|-1]))
  }

  /** The catalog's verdict on a key on a host; empty keys are never asked about. */
  predicate Tracks(tracked: (string, string) -> bool, host: string, p: Pair) { p.key != "" && tracked(p.key, host) }

  function Kept(tracked: (string, string) -> bool, host: string, ps: seq<Pair>): seq<Pair> {
    if ps == [] then []
    else
      var k := |ps| - 1;
      Kept(tracked, host, ps[..k]) + (if Tracks(tracked, host, ps[k]) then [] else [ps[k]])
  }

  function Removed(tracked: (string, string) -> bool, host: string, ps: seq<Pair>): seq<Pair> {
    if ps == [] then []
    else
      var k := |ps| - 1;
      Removed(tracked, host, ps[..k]) + (if Tracks(tracked, host, ps[k]) then [ps[k]] else [])
  }

  lemma InterleavesMore(list: seq<Pair>, kept: seq<Pair>, removed: seq<Pair>, p: Pair)
    requires Interleaves(list, kept, removed)
    ensures Interleaves(list + [p], kept + [p], removed) && Interleaves(list + [p], kept, removed + [p])
  {
    assert (list + [p])[..|list|] == list;
    assert (kept + [p])[..|kept|] == kept && (removed + [p])[..|removed|] == removed;
  }

  lemma {:induction false} KeptInterleaves(tracked: (string, string) -> bool, host: string, ps: seq<Pair>)
    ensures Interleaves(ps, Kept(tracked, host, ps), Removed(tracked, host, ps))
  {
    if ps != [] {
      hide Interleaves, Tracks;
      var k := |ps| - 1;
      var kept, removed := Kept(tracked, host, ps[..k]), Removed(tracked, host, ps[..k]);
      KeptInterleaves(tracked, host, ps[..k]);
      assert ps == ps[..k] + [ps[k]] && kept + [] == kept && removed + [] == removed;
      InterleavesMore(ps[..k], kept, removed, ps[k]);
    }
  }

  lemma {:induction false} KeptAre(tracked: (string, string) -> bool, host: string, ps: seq<Pair>)
    ensures forall q :: q in Kept(tracked, host, ps) ==> q in ps && !Tracks(tracked, host, q)
    ensures Removed(tracked, host, ps) == [] ==> Kept(tracked, host, ps) == ps
  {
    hide Tracks;
    if ps != [] {
      var k := |ps| - 1;
      KeptAre(tracked, host, ps[..k]);
      assert ps == ps[..k] + [ps[k]];
    }
  }

  lemma {:induction false} RemovedAre(tracked: (string, string) -> bool, host: string, ps: seq<Pair>)
    ensures forall q :: q in Removed(tracked, host, ps) ==> q in ps && Tracks(tracked, host, q)
  {
    hide Tracks;
    if ps != [] {
      var k := |ps| - 1;
      RemovedAre(tracked, host, ps[..k]);
      assert ps == ps[..k] + [ps[k]];
    }
  }

  lemma {:induction false} KeepsAll(tracked: (string, string) -> bool, host: string, ps: seq<Pair>)
    requires forall q :: q in ps ==> !Tracks(tracked, host, q)
    ensures Kept(tracked, host, ps) == ps && Removed(tracked, host, ps) == []
  {
    hide Tracks;
    if ps != [] {
      var k := |ps| - 1;
      assert ps == ps[..k] + [ps[k]] && ps[k] in ps;
      KeepsAll(tracked, host, ps[..k]);
    }
  }

  method KeepAndRemove(tracked: (string, string) -> bool, host: string, ps: seq<Pair>)
    returns (kept: seq<Pair>, removed: seq<Pair>)
    ensures kept == Kept(tracked, host, ps) && removed == Removed(tracked, host, ps)
  {
    kept, removed := [], [];
    for i := 0 to |ps|
      invariant kept == Kept(tracked, host, ps[..i]) && removed == Removed(tracked, host, ps[..i])
    {
      assert ps[..i+1][..i] == ps[..i];
      if ps[i].key == "" {
        kept := kept + [ps[i]];
        continue;
      }
      if !tracked(ps[i].key, host) {
        kept := kept + [ps[i]];
        continue;
      }
      removed := removed + [ps[i]];
    }
    assert ps[..|ps|] == ps;
  }

  // ----- sorting -----

  /** strings.Compare(a, b) < 0. */
  predicate LexLess(a: string, b: string) {
    b != "" && (a == "" || a[0] < b[0] || (a[0] == b[0] && LexLess(a[1..], b[1..])))
  }

  /** Where a and b first part, a has the lesser character or ends. */
  ghost predicate PartsBelow(a: string, b: string, n: int) {
    0 <= n <= |a| && n < |b| && a[..n] == b[..n] && (n == |a| || a[n] < b[n])
  }

  lemma {:induction false} LexLessIff(a: string, b: string)
    ensures LexLess(a, b) <==> exists n :: PartsBelow(a, b, n)
  {
    if b != "" && (a == "" || a[0] < b[0]) {
      assert PartsBelow(a, b, 0);
    } else if a != "" && b != "" && a[0] == b[0] {
      LexLessIff(a[1..], b[1..]);
      if n :| PartsBelow(a[1..], b[1..], n) {
        assert a[..n + 1] == [a[0]] + a[1..][..n] && b[..n + 1] == [b[0]] + b[1..][..n];
        assert PartsBelow(a, b, n + 1);
      }
      if n :| PartsBelow(a, b, n) {
        assert n > 0 && a[1..][..n-1] == a[..n][1..] && b[1..][..n-1] == b[..n][1..];
        assert PartsBelow(a[1..], b[1..], n - 1);
      }
    } else {
      forall n | 0 < n <= |a| && n <= |b| ensures a[..n] != b[..n] {
        assert a[..n][0] == a[0] && b[..n][0] == b[0];
      }
    }
  }

  lemma {:induction false} LexTransitive(a: string, b: string, c: string)
    requires !LexLess(b, a) && !LexLess(c, b)
    ensures !LexLess(c, a)
  {
    if a != "" && b != "" && c != "" && a[0] == b[0] && b[0] == c[0] {
      LexTransitive(a[1..], b[1..], c[1..]);
    }
  }

  lemma {:induction false} LexAsymmetric(a: string, b: string)
    ensures !(LexLess(a, b) && LexLess(b, a)) && (LexLess(a, b) || LexLess(b, a) || a == b)
  {
    if a != "" && b != "" && a[0] == b[0] {
      LexAsymmetric(a[1..], b[1..]);
      assert a == [a[0]] + a[1..] && b == [b[0]] + b[1..];
    }
  }

  /** p goes after every pair whose key is not greater. */
  function Insert(ps: seq<Pair>, p: Pair): seq<Pair> {
    if ps == [] || !LexLess(p.key, ps[|ps|-1].key) then ps + [p]
    else Insert(ps[..|ps|-1], p) + [ps[|ps|-1]]
  }

  /** slices.SortStableFunc by key. */
  function StableSort(ps: seq<Pair>): seq<Pair> {
    if ps == [] then [] else Insert(StableSort(ps[..|ps|-1]), ps[|ps|-1])
  }

  ghost predicate SortedByKey(ps: seq<Pair>) {
    forall i, j :: 0 <= i < j < |ps| ==> !LexLess(ps[j].key, ps[i].key)
  }

  function OfKey(ps: seq<Pair>, key: string): seq<Pair> {
    if ps == [] then []
    else OfKey(ps[..|ps|-1], key) + (if ps[|ps|-1].key == key then [ps[|ps|-1]] else [])
  }

  lemma {:induction false} InsertSorts(ps: seq<Pair>, p: Pair)
    requires SortedByKey(ps)
    ensures SortedByKey(Insert(ps, p))
    ensures forall q :: q in Insert(ps, p) <==> q in ps || q == p
  {
    if ps != [] {
      var k := |ps| - 1;
      var last := ps[k];
      assert ps == ps[..k] + [last];
      if LexLess(p.key, last.key) {
        InsertSorts(ps[..k], p);
        var r := Insert(ps[..k], p);
        LexAsymmetric(p.key, last.key);
        forall i | 0 <= i < |r| ensures !LexLess(last.key, r[i].key) {
          assert r[i] in r;
        }
      } else {
        forall i | 0 <= i < k ensures !LexLess(p.key, ps[i].key) {
          LexTransitive(ps[i].key, last.key, p.key);
        }
      }
    }
  }

  lemma OfKeySnoc(ps: seq<Pair>, p: Pair, key: string)
    ensures OfKey(ps + [p], key) == OfKey(ps, key) + (if p.key == key then [p] else [])
  {
    assert (ps + [p])[..|ps|] == ps;
  }

  lemma {:induction false} InsertKeepsOrder(ps: seq<Pair>, p: Pair, key: string)
    ensures OfKey(Insert(ps, p), key) == OfKey(ps, key) + (if p.key == key then [p] else [])
  {
    hide OfKey;
    if ps != [] && LexLess(p.key, ps[|ps|-1].key) {
      var init, last := ps[..|ps|-1], ps[|ps|-1];
      LexAsymmetric(p.key, last.key);
      assert p.key != last.key;
      hide LexLess;
      InsertKeepsOrder(init, p, key);
      assert ps == init + [last];
      OfKeySnoc(init, last, key);
      OfKeySnoc(Insert(init, p), last, key);
    } else {
      OfKeySnoc(ps, p, key);
    }
  }

  /** Sorting orders the pairs by key, loses none, adds none, and leaves equal keys in the order they had. */
  lemma {:induction false} SortIsStable(ps: seq<Pair>)
    ensures SortedByKey(StableSort(ps))
    ensures forall q :: q in StableSort(ps) <==> q in ps
    ensures forall key :: OfKey(StableSort(ps), key) == OfKey(ps, key)
  {
    if ps != [] {
      var k := |ps| - 1;
      SortIsStable(ps[..k]);
      InsertSorts(StableSort(ps[..k]), ps[k]);
      assert ps == ps[..k] + [ps[k]];
      forall key ensures OfKey(StableSort(ps), key) == OfKey(ps, key) {
        InsertKeepsOrder(StableSort(ps[..k]), ps[k], key);
      }
    }
  }

  lemma {:induction false} SortedStays(ps: seq<Pair>)
    requires SortedByKey(ps)
    ensures StableSort(ps) == ps
  {
    if ps != [] {
      SortedStays(ps[..|ps|-1]);
      assert ps == ps[..|ps|-1] + [ps[|ps|-1]];
    }
  }

  // ----- Clean -----

  /** The catalog, the host a prefix names, and strings.ToLower. */
  datatype Rules = Rules(
    tracked: (string, string) -> bool, hostOf: string -> string, lower: string -> string)

  datatype Cleaned = Cleaned(output: string, removed: seq<Pair>, signed: bool)

  /** The untracked pairs of a link. */
  function KeptOf(rules: Rules, p: Parts): seq<Pair> {
    Kept(rules.tracked, rules.hostOf(p.prefix), SplitRawPairs(p.query))
  }

  function FinalPairs(rules: Rules, sort: bool, p: Parts): seq<Pair> {
    var kept := KeptOf(rules, p);
    if sort then StableSort(kept) else kept
  }

  /** The '?' stays with any text after it, and where the writer put it when nothing was removed. */
  function Outcome(p: Parts, query: string, noneRemoved: bool): Parts {
    Parts(p.prefix, query, p.frag, query != "" || (p.hasQuery && noneRemoved), p.hasFrag)
  }

  /** Cleaning with unwrapping off. */
  function CleanOf(rules: Rules, sort: bool, work: string): Cleaned {
    var p := SplitParts(work);
    var pairs := SplitRawPairs(p.query);
    if Signed(rules.lower, pairs) then Cleaned(work, [], true)
    else
      var removed := Removed(rules.tracked, rules.hostOf(p.prefix), pairs);
      Cleaned(Assembled(Outcome(p, JoinRawPairs(FinalPairs(rules, sort, p)), removed == [])), removed, false)
  }

  method WriteOut(p: Parts, query: string, noneRemoved: bool) returns (out: string)
    ensures out == Assembled(Outcome(p, query, noneRemoved))
  {
    out := p.prefix;
    if query != "" {
      out := out + (['?'] + query);
    } else if p.hasQuery && noneRemoved {
      out := out + ['?'];
      assert ['?'] + query == ['?'];
    }
    if p.hasFrag {
      out := out + (['#'] + p.frag);
    }
  }

  method Clean(rules: Rules, sort: bool, work: string) returns (r: Cleaned)
    ensures r == CleanOf(rules, sort, work)
  {
    hide SplitParts, SplitRawPairs, Signed, Kept, Removed, JoinRawPairs, StableSort, Assembled, Outcome;
    var p := SplitParts(work);
    var pairs := SplitRawPairs(p.query);
    var signed := LooksSigned(rules.lower, pairs);
    SchemeIffSigned(rules.lower, pairs);
    hide SchemeOf;
    if signed.Some? {
      return Cleaned(work, [], true);
    }
    var kept, removed := KeepAndRemove(rules.tracked, rules.hostOf(p.prefix), pairs);
    if sort {
      kept := StableSort(kept);
    }
    var out := WriteOut(p, JoinRawPairs(kept), removed == []);
    r := Cleaned(out, removed, false);
  }

  /** Nothing removed and nothing sorted: the link comes back byte for byte. */
  lemma NothingRemovedIsSame(rules: Rules, work: string)
    requires CleanOf(rules, false, work).removed == []
    ensures CleanOf(rules, false, work).output == work
  {
    var p := SplitParts(work);
    SplitPartsIs(work);
    PairsAreWritten(p.query);
    KeptAre(rules.tracked, rules.hostOf(p.prefix), SplitRawPairs(p.query));
    assert p.query != "" ==> p.hasQuery;
    hide SplitParts, SplitRawPairs, Signed, Kept, Removed, JoinRawPairs, Assembled;
  }

  lemma FinalIn(rules: Rules, sort: bool, p: Parts)
    ensures forall q :: q in FinalPairs(rules, sort, p) ==>
      q in SplitRawPairs(p.query) && !Tracks(rules.tracked, rules.hostOf(p.prefix), q)
  {
    var pairs, host := SplitRawPairs(p.query), rules.hostOf(p.prefix);
    KeptAre(rules.tracked, host, pairs);
    hide SplitRawPairs, Kept, StableSort, Tracks, OfKey, SortedByKey;
    SortIsStable(Kept(rules.tracked, host, pairs));
    var final := FinalPairs(rules, sort, p);
    assert forall q :: q in final <==> q in Kept(rules.tracked, host, pairs);
  }

  lemma SomeAreWritten(all: seq<Pair>, some: seq<Pair>)
    requires Written(all) && forall q :: q in some ==> q in all
    ensures Written(some)
  {
    hide PairOf;
    forall i | 0 <= i < |some| ensures some[i] == PairOf(some[i].raw) && '&' !in some[i].raw && '#' !in some[i].raw {
      assert some[i] in all;
    }
  }

  lemma FinalPairsAre(rules: Rules, sort: bool, p: Parts)
    requires Cut(p)
    ensures Written(FinalPairs(rules, sort, p))
    ensures forall q :: q in FinalPairs(rules, sort, p) ==>
      q in SplitRawPairs(p.query) && !Tracks(rules.tracked, rules.hostOf(p.prefix), q)
  {
    hide SplitRawPairs, FinalPairs, Written, Tracks;
    PairsAreWritten(p.query);
    FinalIn(rules, sort, p);
    SomeAreWritten(SplitRawPairs(p.query), FinalPairs(rules, sort, p));
  }

  /** Just one pair, and that one empty. */
  predicate LoneEmpty(ps: seq<Pair>) { |ps| == 1 && ps[0].raw == "" }

  lemma SortKeepsLone(ps: seq<Pair>)
    ensures LoneEmpty(StableSort(ps)) <==> LoneEmpty(ps)
  {
    SortSize(ps);
    if |ps| == 1 {
      assert ps[..0] == [];
      assert StableSort(ps) == Insert([], ps[0]) == [] + [ps[0]];
    }
  }

  lemma {:induction false} InsertSize(ps: seq<Pair>, p: Pair)
    ensures |Insert(ps, p)| == |ps| + 1
  {
    if ps != [] && LexLess(p.key, ps[|ps|-1].key) {
      InsertSize(ps[..|ps|-1], p);
    }
  }

  lemma {:induction false} SortSize(ps: seq<Pair>)
    ensures |StableSort(ps)| == |ps|
  {
    if ps != [] {
      SortSize(ps[..|ps|-1]);
      InsertSize(StableSort(ps[..|ps|-1]), ps[|ps|-1]);
    }
  }

  /** The same pairs, in the order asked for: by key with equal keys as they stood, or untouched. */
  ghost predicate SortIfAsked(sort: bool, kept: seq<Pair>, final: seq<Pair>) {
    if sort then SortedByKey(final) && forall key :: OfKey(final, key) == OfKey(kept, key) else final == kept
  }

  /** Each removed pair is one the catalog names for the host, and no kept pair is. */
  ghost predicate TakenRight(rules: Rules, p: Parts, removed: seq<Pair>) {
    && (forall t :: t in removed ==> t.key != "" && rules.tracked(t.key, rules.hostOf(p.prefix)))
    && (forall t :: t in KeptOf(rules, p) ==> t.key == "" || !rules.tracked(t.key, rules.hostOf(p.prefix)))
  }

  lemma PartsStay(rules: Rules, sort: bool, work: string)
    requires !CleanOf(rules, sort, work).signed
    ensures var r, p := CleanOf(rules, sort, work), SplitParts(work);
      var final, q := FinalPairs(rules, sort, p), SplitParts(r.output);
      && q.prefix == p.prefix && q.frag == p.frag && q.hasFrag == p.hasFrag && q.query == JoinRawPairs(final)
      && (q.hasQuery <==> q.query != "" || (p.hasQuery && r.removed == []))
  {
    var p := SplitParts(work);
    var final := FinalPairs(rules, sort, p);
    SplitPartsIs(work);
    FinalPairsAre(rules, sort, p);
    PairsOfJoined(final);
    PartsOfAssembled(Outcome(p, JoinRawPairs(final), CleanOf(rules, sort, work).removed == []));
    hide SplitParts, SplitRawPairs, Signed, Removed, JoinRawPairs, FinalPairs, Written, Assembled;
  }

  lemma PairsStay(rules: Rules, sort: bool, work: string)
    requires !CleanOf(rules, sort, work).signed
    ensures var r, p := CleanOf(rules, sort, work), SplitParts(work);
      && Interleaves(SplitRawPairs(p.query), KeptOf(rules, p), r.removed) && TakenRight(rules, p, r.removed)
      && SortIfAsked(sort, KeptOf(rules, p), FinalPairs(rules, sort, p))
  {
    var p := SplitParts(work);
    KeptInterleaves(rules.tracked, rules.hostOf(p.prefix), SplitRawPairs(p.query));
    KeptAre(rules.tracked, rules.hostOf(p.prefix), SplitRawPairs(p.query));
    RemovedAre(rules.tracked, rules.hostOf(p.prefix), SplitRawPairs(p.query));
    SortIsStable(KeptOf(rules, p));
    hide SplitParts, SplitRawPairs, Signed, Kept, Removed, StableSort, Interleaves, Assembled, SortedByKey, OfKey;
  }

  /** What is left is the prefix, the kept pairs as they were written, and the fragment; the kept pairs and the removed
      ones interleave to the pairs of the link, and only tracked ones are removed. Reading the output gives exactly the
      kept pairs unless they are a single empty one, which goes with its '?'. */
  lemma OnlyPairsGo(rules: Rules, sort: bool, work: string)
    requires !CleanOf(rules, sort, work).signed
    ensures var r, p := CleanOf(rules, sort, work), SplitParts(work);
      var final, q := FinalPairs(rules, sort, p), SplitParts(r.output);
      && q.prefix == p.prefix && q.frag == p.frag && q.hasFrag == p.hasFrag && q.query == JoinRawPairs(final)
      && (q.hasQuery <==> q.query != "" || (p.hasQuery && r.removed == []))
      && Interleaves(SplitRawPairs(p.query), KeptOf(rules, p), r.removed) && TakenRight(rules, p, r.removed)
      && SortIfAsked(sort, KeptOf(rules, p), final)
      && (SplitRawPairs(q.query) == final <==> !LoneEmpty(KeptOf(rules, p)))
      && (LoneEmpty(KeptOf(rules, p)) ==> q.query == "")
  {
    var p := SplitParts(work);
    var final := FinalPairs(rules, sort, p);
    SplitPartsIs(work);
    FinalPairsAre(rules, sort, p);
    PairsOfJoined(final);
    SortKeepsLone(KeptOf(rules, p));
    assert SplitRawPairs("") == [];
    PartsStay(rules, sort, work);
    PairsStay(rules, sort, work);
    hide SplitParts, SplitRawPairs, CleanOf, KeptOf, JoinRawPairs, StableSort, Interleaves, TakenRight, SortIfAsked,
      Written;
  }

  /** A signed link is left as it is; which links are, LooksSigned says. */
  lemma SignedIsUntouched(rules: Rules, sort: bool, work: string)
    ensures CleanOf(rules, sort, work).signed <==> SchemeOf(rules.lower, SplitRawPairs(SplitParts(work).query)).Some?
    ensures CleanOf(rules, sort, work).signed ==> CleanOf(rules, sort, work) == Cleaned(work, [], true)
  {
    SchemeIffSigned(rules.lower, SplitRawPairs(SplitParts(work).query));
    hide SchemeOf, SplitParts, SplitRawPairs;
  }

  /** One tracked pair followed by '&': the empty pair after it goes too, and the '?' with it. */
  lemma LoneEmptyPairGoes()
    ensures var rules := Rules((key, _) => key == "t", prefix => prefix, s => s);
      && CleanOf(rules, false, "h?t&") == Cleaned("h", [PairOf("t")], false)
      && KeptOf(rules, SplitParts("h?t&")) == [PairOf("")] && SplitRawPairs(SplitParts("h").query) == []
  {
    var rules := Rules((key, _) => key == "t", prefix => prefix, s => s);
    var p := Parts("h", "t&", "", true, false);
    var t, e := PairOf("t"), PairOf("");
    LonePartsAre();
    LonePairsAre();
    LoneIsUnsigned(rules.lower, [t, e]);
    LoneIsKept(rules.tracked, rules.hostOf("h"), t, e);
    LoneAssembles();
    var r := CleanOf(rules, false, "h?t&");
    assert !r.signed && r.removed == [t] && LoneEmpty(KeptOf(rules, p));
    hide SplitParts, SplitRawPairs, Signed, Kept, Removed, PairOf, JoinRawPairs, Assembled, CleanOf, FinalPairs;
    OnlyPairsGo(rules, false, "h?t&");
    SplitPartsIs(r.output);
    assert SplitParts(r.output) == Parts("h", "", "", false, false);
  }

  lemma LoneAssembles()
    ensures Assembled(Parts("h", "", "", false, false)) == "h" && SplitParts("h") == Parts("h", "", "", false, false)
  {
    PartsOfAssembled(Parts("h", "", "", false, false));
  }

  lemma LonePartsAre()
    ensures SplitParts("h?t&") == Parts("h", "t&", "", true, false)
  {
    var p := Parts("h", "t&", "", true, false);
    assert Assembled(p) == "h?t&";
    PartsOfAssembled(p);
  }

  lemma LonePairsAre()
    ensures SplitRawPairs("t&") == [PairOf("t"), PairOf("")] && SplitRawPairs("") == []
    ensures PairOf("t") == Pair("t", "t", "") && PairOf("") == Pair("", "", "")
  {
    assert Join(["t", ""], '&') == "t&" by { assert ["t", ""][1..] == [""]; }
    SplitJoin(["t", ""], '&');
    assert PairsOf(["t", ""])[0] == PairOf("t") && PairsOf(["t", ""])[1] == PairOf("");
    PlainDecodes("t");
    PlainDecodes("");
    CutNone("t", '=');
    assert "t"[..1] == "t";
  }

  lemma PlainDecodes(s: string)
    requires s == "t" || s == ""
    ensures DecodeOrRaw(s) == s
  {
    if s == "t" {
      UnescapePlain('t', "");
      assert ['t'] + "" == "t";
      assert RuneLength("t") == 1;
    }
  }

  lemma LoneIsUnsigned(lower: string -> string, ps: seq<Pair>)
    requires |ps| == 2 && lower(ps[0].key) == "t" && lower(ps[1].key) == ""
    ensures !Signed(lower, ps)
  {
  }

  lemma LoneIsKept(tracked: (string, string) -> bool, host: string, p: Pair, q: Pair)
    requires Tracks(tracked, host, p) && !Tracks(tracked, host, q)
    ensures Kept(tracked, host, [p, q]) == [q] && Removed(tracked, host, [p, q]) == [p]
  {
    assert [p, q][..1] == [p] && [p][..0] == [];
    assert Kept(tracked, host, [p]) == [] && Removed(tracked, host, [p]) == [p];
  }

  lemma PairsOfFinal(rules: Rules, sort: bool, p: Parts, query: string)
    requires Cut(p) && query == JoinRawPairs(FinalPairs(rules, sort, p))
    ensures SplitRawPairs(query) == FinalPairs(rules, sort, p) || (SplitRawPairs(query) == [] && query == "")
  {
    hide FinalPairs, JoinRawPairs, Written;
    FinalPairsAre(rules, sort, p);
    PairsOfJoined(FinalPairs(rules, sort, p));
  }

  /** Of pairs nothing tracks and nothing signs, sorted already if they are to be, all are kept as they are. */
  lemma FinalAgain(rules: Rules, sort: bool, p: Parts, again: Parts)
    requires Cut(p) && again.prefix == p.prefix && !Signed(rules.lower, SplitRawPairs(p.query))
    requires again.query == JoinRawPairs(FinalPairs(rules, sort, p))
    ensures var pairs := SplitRawPairs(again.query);
      && !Signed(rules.lower, pairs) && Removed(rules.tracked, rules.hostOf(p.prefix), pairs) == []
      && JoinRawPairs(FinalPairs(rules, sort, again)) == again.query
  {
    var final, pairs, host := FinalPairs(rules, sort, p), SplitRawPairs(again.query), rules.hostOf(p.prefix);
    FinalPairsAre(rules, sort, p);
    PairsOfFinal(rules, sort, p, again.query);
    FinalIsSorted(rules, sort, p);
    NothingSorts();
    hide SplitRawPairs, Signed, Kept, Removed, JoinRawPairs, Written, Tracks, StableSort, SortedByKey;
    assert forall q :: q in pairs ==> q in final;
    SignedIsMonotone(rules.lower, pairs, SplitRawPairs(p.query));
    KeepsAll(rules.tracked, host, pairs);
    if sort {
      SortedStays(final);
    }
  }

  lemma NothingSorts()
    ensures JoinRawPairs([]) == "" && StableSort([]) == []
  {
  }

  lemma FinalIsSorted(rules: Rules, sort: bool, p: Parts)
    ensures sort ==> SortedByKey(FinalPairs(rules, sort, p))
  {
    SortIsStable(Kept(rules.tracked, rules.hostOf(p.prefix), SplitRawPairs(p.query)));
    hide SplitRawPairs, Kept, StableSort, OfKey, SortedByKey;
  }

  /** Cleaning what was cleaned changes nothing and removes nothing, sorted or not. */
  lemma CleanIsIdempotent(rules: Rules, sort: bool, work: string)
    ensures var r := CleanOf(rules, sort, work); CleanOf(rules, sort, r.output) == Cleaned(r.output, [], r.signed)
  {
    var r, p := CleanOf(rules, sort, work), SplitParts(work);
    if !r.signed {
      var again := SplitParts(r.output);
      SplitPartsIs(work);
      OnlyPairsGo(rules, sort, work);
      hide SplitParts, SplitRawPairs, Signed, Kept, Removed, JoinRawPairs, FinalPairs, Interleaves, Assembled;
      FinalAgain(rules, sort, p, again);
      assert Outcome(again, again.query, true) == again;
      SplitPartsIs(r.output);
    }
  }
}
