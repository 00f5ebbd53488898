/** Comparing the parameters of two URLs: repeated keys pair up by occurrence, and a move is named. */
module ParamDiff {
  datatype Param = Param(key: string, value: string, index: nat)

  datatype Kind = Added | Removed | Modified | Moved | Same

  datatype Change = Change(key: string, kind: Kind, a: string, b: string, indexA: nat, indexB: nat)

  // ----- grouping -----

  /** One key's parameters, in order. */
  function Occurrences(ps: seq<Param>, key: string): seq<Param> {
    if ps == [] then []
    else Occurrences(ps[..|ps|-1], key) + if ps[|ps|-1].key == key then [ps[|ps|-1]] else []
  }

  /** Keys in first-seen order, each once. */
  function Keys(ps: seq<Param>): seq<string> {
    if ps == [] then []
    else
      var init := Keys(ps[..|ps|-1]);
      if ps[|ps|-1].key in init then init else init + [ps[|ps|-1].key]
  }

  ghost predicate Distinct<T>(s: seq<T>) {
    forall i, j :: 0 <= i < j < |s| ==> s[i] != s[j]
  }

  lemma {:induction false} KeysAreKeys(ps: seq<Param>, key: string)
    ensures Distinct(Keys(ps))
    ensures key in Keys(ps) <==> exists p :: p in ps && p.key == key
    ensures key in Keys(ps) <==> Occurrences(ps, key) != []
  {
    if ps != [] {
      var init, last := ps[..|ps|-1], ps[|ps|-1];
      KeysAreKeys(init, key);
      assert forall p :: p in ps <==> p in init || p == last;
    }
  }

  function At(m: map<string, seq<Param>>, key: string): seq<Param> {
    if key in m then m[key] else []
  }

  method GroupByKey(ps: seq<Param>) returns (m: map<string, seq<Param>>)
    ensures forall key :: At(m, key) == Occurrences(ps, key)
  {
    m := map[];
    for i := 0 to |ps|
      invariant forall key :: At(m, key) == Occurrences(ps[..i], key)
    {
      assert ps[..i + 1][..i] == ps[..i];
      m := m[ps[i].key := At(m, ps[i].key) + [ps[i]]];
    }
    assert ps[..|ps|] == ps;
  }

  method OrderedKeys(a: seq<Param>, b: seq<Param>) returns (out: seq<string>)
    ensures out == Keys(a + b)
  {
    var seen: set<string>;
    seen, out := SeeKeys({}, [], [], a);
    assert [] + a == a;
    seen, out := SeeKeys(seen, out, a, b);
  }

  lemma KeysStep(done: seq<Param>, ps: seq<Param>, i: nat)
    requires i < |ps|
    ensures Keys(done + ps[..i + 1]) ==
            Keys(done + ps[..i]) + if ps[i].key in Keys(done + ps[..i]) then [] else [ps[i].key]
  {
    assert (done + ps[..i + 1])[..|done| + i] == done + ps[..i];
  }

  /** One list's turn: keys not seen before go to the end. */
  method SeeKeys(seen0: set<string>, out0: seq<string>, ghost done: seq<Param>, ps: seq<Param>)
    returns (seen: set<string>, out: seq<string>)
    requires out0 == Keys(done) && forall k :: k in seen0 <==> k in out0
    ensures out == Keys(done + ps) && forall k :: k in seen <==> k in out
  {
    hide Keys;
    seen, out := seen0, out0;
    assert done + ps[..0] == done;
    for i := 0 to |ps|
      invariant out == Keys(done + ps[..i]) && forall k :: k in seen <==> k in out
    {
      KeysStep(done, ps, i);
      if ps[i].key !in seen {
        seen := seen + {ps[i].key};
        out := out + [ps[i].key];
      }
    }
    assert ps[..|ps|] == ps;
  }

  // ----- pairing -----

  /** The i-th row of one key, whose parameters are va in A and vb in B. */
  function Row(key: string, va: seq<Param>, vb: seq<Param>, i: nat): Change
    requires i < |va| || i < |vb|
  {
    if i >= |va| then Change(key, Added, "", vb[i].value, 0, vb[i].index)
    else if i >= |vb| then Change(key, Removed, va[i].value, "", va[i].index, 0)
    else if va[i].value != vb[i].value then Change(key, Modified, va[i].value, vb[i].value, va[i].index, vb[i].index)
    else Change(key, Same, va[i].value, vb[i].value, va[i].index, vb[i].index)
  }

  function Longer(va: seq<Param>, vb: seq<Param>): nat {
    if |va| > |vb| then |va| else |vb|
  }

  /** The first n rows of one key. */
  function KeyRows(key: string, va: seq<Param>, vb: seq<Param>, n: nat): seq<Change>
    requires n <= Longer(va, vb)
  {
    if n == 0 then [] else KeyRows(key, va, vb, n - 1) + [Row(key, va, vb, n - 1)]
  }

  function Rows(keys: seq<string>, a: seq<Param>, b: seq<Param>): seq<Change> {
    if keys == [] then []
    else
      var key := keys[|keys|-1];
      var va, vb := Occurrences(a, key), Occurrences(b, key);
      Rows(keys[..|keys|-1], a, b) + KeyRows(key, va, vb, Longer(va, vb))
  }

  /** All rows before moves are marked. */
  function Paired(a: seq<Param>, b: seq<Param>): seq<Change> {
    Rows(Keys(a + b), a, b)
  }

  method PairUp(a: seq<Param>, b: seq<Param>) returns (rows: seq<Change>)
    ensures rows == Paired(a, b)
  {
    var ga := GroupByKey(a);
    var gb := GroupByKey(b);
    var keys := OrderedKeys(a, b);
    rows := [];
    for k := 0 to |keys|
      invariant rows == Rows(keys[..k], a, b)
    {
      var key := keys[k];
      var va, vb := At(ga, key), At(gb, key);
      var more := PairKey(key, va, vb);
      rows := rows + more;
      assert keys[..k + 1][..k] == keys[..k];
    }
    assert keys[..|keys|] == keys;
  }

  method PairKey(key: string, va: seq<Param>, vb: seq<Param>) returns (rows: seq<Change>)
    ensures rows == KeyRows(key, va, vb, Longer(va, vb))
  {
    rows := [];
    var n := Longer(va, vb);
    for i := 0 to n
      invariant rows == KeyRows(key, va, vb, i)
    {
      if i >= |va| {
        rows := rows + [Change(key, Added, "", vb[i].value, 0, vb[i].index)];
      } else if i >= |vb| {
        rows := rows + [Change(key, Removed, va[i].value, "", va[i].index, 0)];
      } else if va[i].value != vb[i].value {
        rows := rows + [Change(key, Modified, va[i].value, vb[i].value, va[i].index, vb[i].index)];
      } else {
        rows := rows + [Change(key, Same, va[i].value, vb[i].value, va[i].index, vb[i].index)];
      }
    }
  }

  /** A row is the i-th of one key, and each such row is there. */
  ghost predicate IsRow(a: seq<Param>, b: seq<Param>, r: Change, key: string, i: int) {
    RowAt(Occurrences(a, key), Occurrences(b, key), r, key, i)
  }

  /** The row holds the i-th parameter of the key from each side that has one, and its kind says which sides do and, if
      both, whether the values agree. */
  ghost predicate RowAt(va: seq<Param>, vb: seq<Param>, r: Change, key: string, i: int) {
    && 0 <= i && (i < |va| || i < |vb|) && r.key == key
    && (if i < |va| then r.a == va[i].value && r.indexA == va[i].index else r.a == "" && r.indexA == 0)
    && (if i < |vb| then r.b == vb[i].value && r.indexB == vb[i].index else r.b == "" && r.indexB == 0)
    && (r.kind == Added <==> i >= |va|)
    && (r.kind == Removed <==> i >= |vb|)
    && (r.kind == Modified <==> i < |va| && i < |vb| && va[i].value != vb[i].value)
    && (r.kind == Same <==> i < |va| && i < |vb| && va[i].value == vb[i].value)
  }

  /** There is one such row. */
  lemma RowIsAt(key: string, va: seq<Param>, vb: seq<Param>, i: nat, r: Change)
    requires i < |va| || i < |vb|
    ensures RowAt(va, vb, r, key, i) <==> r == Row(key, va, vb, i)
  {
  }

  lemma {:induction false} KeyRowsAre(key: string, va: seq<Param>, vb: seq<Param>, n: nat, r: Change)
    requires n <= Longer(va, vb)
    ensures r in KeyRows(key, va, vb, n) <==> exists i :: i < n && RowAt(va, vb, r, key, i)
  {
    if n > 0 {
      KeyRowsAre(key, va, vb, n - 1, r);
      RowIsAt(key, va, vb, n - 1, r);
      hide RowAt, Row;
    }
  }

  lemma {:induction false} RowsAre(keys: seq<string>, a: seq<Param>, b: seq<Param>, r: Change)
    ensures r in Rows(keys, a, b) <==> exists key, i :: key in keys && IsRow(a, b, r, key, i)
  {
    if keys != [] {
      var init, key := keys[..|keys|-1], keys[|keys|-1];
      RowsAre(init, a, b, r);
      var va, vb := Occurrences(a, key), Occurrences(b, key);
      KeyRowsAre(key, va, vb, Longer(va, vb), r);
      assert forall i :: RowAt(va, vb, r, key, i) <==> IsRow(a, b, r, key, i);
      assert forall k :: k in keys <==> k in init || k == key;
    }
  }

  lemma {:induction false} OccurrencesConcat(a: seq<Param>, b: seq<Param>, key: string)
    ensures Occurrences(a + b, key) == Occurrences(a, key) + Occurrences(b, key)
  {
    if b == [] {
      assert a + b == a;
    } else {
      assert (a + b)[..|a + b|-1] == a + b[..|b|-1];
      OccurrencesConcat(a, b[..|b|-1], key);
    }
  }

  lemma PairedAre(a: seq<Param>, b: seq<Param>, r: Change)
    ensures r in Paired(a, b) <==> exists key, i :: IsRow(a, b, r, key, i)
  {
    RowsAre(Keys(a + b), a, b, r);
    forall key, i | IsRow(a, b, r, key, i) ensures key in Keys(a + b) {
      KeysAreKeys(a + b, key);
      OccurrencesConcat(a, b, key);
    }
  }

  // ----- order -----

  /** k1 is there before the first k2 is. */
  ghost predicate Earlier(ps: seq<Param>, k1: string, k2: string) {
    exists i :: 0 <= i < |ps| && ps[i].key == k1 && forall j :: 0 <= j <= i ==> ps[j].key != k2
  }

  lemma EarlierStays(ps: seq<Param>, p: Param, k1: string, k2: string)
    requires Earlier(ps, k1, k2)
    ensures Earlier(ps + [p], k1, k2)
  {
    var i :| 0 <= i < |ps| && ps[i].key == k1 && forall j :: 0 <= j <= i ==> ps[j].key != k2;
    assert (ps + [p])[i] == ps[i];
  }

  lemma {:induction false} KeysInOrder(ps: seq<Param>, i: nat, j: nat)
    requires i < j < |Keys(ps)|
    ensures Earlier(ps, Keys(ps)[i], Keys(ps)[j])
  {
    var init, last := ps[..|ps|-1], ps[|ps|-1];
    assert ps == init + [last];
    if j < |Keys(init)| {
      KeysInOrder(init, i, j);
      EarlierStays(init, last, Keys(ps)[i], Keys(ps)[j]);
    } else {
      KeysAreKeys(init, Keys(ps)[i]);
      KeysAreKeys(init, last.key);
      assert Keys(ps)[i] == Keys(init)[i] && Keys(init)[i] in Keys(init);
      var p :| p in init && p.key == Keys(ps)[i];
      var k :| 0 <= k < |init| && init[k] == p;
      assert forall m :: 0 <= m <= k ==> ps[m] in init && ps[m].key != last.key;
    }
  }

  lemma {:induction false} KeyRowsKey(key: string, va: seq<Param>, vb: seq<Param>, n: nat)
    requires n <= Longer(va, vb)
    ensures |KeyRows(key, va, vb, n)| == n
    ensures forall i :: 0 <= i < n ==> RowAt(va, vb, KeyRows(key, va, vb, n)[i], key, i)
  {
    if n > 0 {
      KeyRowsKey(key, va, vb, n - 1);
      RowIsAt(key, va, vb, n - 1, Row(key, va, vb, n - 1));
      hide RowAt, Row;
    }
  }

  lemma {:induction false} RowsKeys(keys: seq<string>, a: seq<Param>, b: seq<Param>, ps: seq<Param>)
    requires forall i, j :: 0 <= i < j < |keys| ==> Earlier(ps, keys[i], keys[j])
    ensures forall r :: r in Rows(keys, a, b) ==> r.key in keys
    ensures forall j, k :: 0 <= j < k < |Rows(keys, a, b)| ==>
      var r, s := Rows(keys, a, b)[j], Rows(keys, a, b)[k]; r.key == s.key || Earlier(ps, r.key, s.key)
  {
    if keys != [] {
      var n := |keys| - 1;
      var key, init := keys[n], Rows(keys[..n], a, b);
      var va, vb := Occurrences(a, key), Occurrences(b, key);
      var more := KeyRows(key, va, vb, Longer(va, vb));
      RowsKeys(keys[..n], a, b, ps);
      KeyRowsKey(key, va, vb, Longer(va, vb));
      assert keys == keys[..n] + [key];
      assert forall r :: r in more ==> r.key == key;
      hide Earlier, KeyRows, RowAt, Occurrences;
      var rows := Rows(keys, a, b);
      assert rows == init + more;
      forall j, k | 0 <= j < k < |rows| ensures rows[j].key == rows[k].key || Earlier(ps, rows[j].key, rows[k].key) {
        if k >= |init| {
          assert rows[k] in more;
          if j < |init| {
            assert rows[j] in init;
            var i :| 0 <= i < n && keys[i] == rows[j].key;
          } else {
            assert rows[j] in more;
          }
        }
      }
    }
  }

  /** Rows stand key by key, keys in the order in which they are first seen in A and then B. */
  lemma RowsInOrder(a: seq<Param>, b: seq<Param>, j: nat, k: nat)
    requires j < k < |Paired(a, b)|
    ensures Paired(a, b)[j].key == Paired(a, b)[k].key ||
            Earlier(a + b, Paired(a, b)[j].key, Paired(a, b)[k].key)
  {
    forall m, n | 0 <= m < n < |Keys(a + b)| ensures Earlier(a + b, Keys(a + b)[m], Keys(a + b)[n]) {
      KeysInOrder(a + b, m, n);
    }
    RowsKeys(Keys(a + b), a, b, a + b);
  }

  /** The rows of one key. */
  function RowsOf(rows: seq<Change>, key: string): seq<Change> {
    if rows == [] then []
    else RowsOf(rows[..|rows|-1], key) + if rows[|rows|-1].key == key then [rows[|rows|-1]] else []
  }

  lemma {:induction false} RowsOfConcat(r: seq<Change>, s: seq<Change>, key: string)
    ensures RowsOf(r + s, key) == RowsOf(r, key) + RowsOf(s, key)
  {
    if s == [] {
      assert r + s == r;
    } else {
      assert (r + s)[..|r + s|-1] == r + s[..|s|-1];
      RowsOfConcat(r, s[..|s|-1], key);
    }
  }

  lemma {:induction false} RowsOfOne(rows: seq<Change>, of: string, key: string)
    requires forall r :: r in rows ==> r.key == of
    ensures RowsOf(rows, key) == if of == key then rows else []
  {
    if rows != [] {
      RowsOfOne(rows[..|rows|-1], of, key);
      assert rows[|rows|-1] in rows && rows == rows[..|rows|-1] + [rows[|rows|-1]];
    }
  }

  function AllRows(a: seq<Param>, b: seq<Param>, key: string): seq<Change> {
    KeyRows(key, Occurrences(a, key), Occurrences(b, key), Longer(Occurrences(a, key), Occurrences(b, key)))
  }

  lemma RowsNext(keys: seq<string>, a: seq<Param>, b: seq<Param>)
    requires keys != []
    ensures Rows(keys, a, b) == Rows(keys[..|keys|-1], a, b) + AllRows(a, b, keys[|keys|-1])
    ensures forall r :: r in AllRows(a, b, keys[|keys|-1]) ==> r.key == keys[|keys|-1]
  {
    var key := keys[|keys|-1];
    var va, vb := Occurrences(a, key), Occurrences(b, key);
    KeyRowsKey(key, va, vb, Longer(va, vb));
  }

  lemma NoRowsOf(a: seq<Param>, b: seq<Param>, key: string)
    ensures RowsOf(Rows([], a, b), key) == []
  {
  }

  lemma {:induction false} RowsOfRows(keys: seq<string>, a: seq<Param>, b: seq<Param>, key: string)
    requires forall i, j :: 0 <= i < j < |keys| ==> keys[i] != keys[j]
    ensures RowsOf(Rows(keys, a, b), key) == if key in keys then AllRows(a, b, key) else []
  {
    hide *;
    if keys == [] {
      NoRowsOf(a, b, key);
    } else {
      var n := |keys| - 1;
      RowsNext(keys, a, b);
      RowsOfRows(keys[..n], a, b, key);
      RowsOfOne(AllRows(a, b, keys[n]), keys[n], key);
      RowsOfConcat(Rows(keys[..n], a, b), AllRows(a, b, keys[n]), key);
      assert key in keys <==> key in keys[..n] || key == keys[n];
      assert keys[n] !in keys[..n];
    }
  }

  /** The rows of one key pair its occurrences one by one, first with first. */
  lemma RowsPairOccurrences(a: seq<Param>, b: seq<Param>, key: string)
    ensures var va, vb, rows := Occurrences(a, key), Occurrences(b, key), RowsOf(Paired(a, b), key);
      && |rows| == (if |va| > |vb| then |va| else |vb|)
      && forall i :: 0 <= i < |rows| ==> RowAt(va, vb, rows[i], key, i)
  {
    var va, vb := Occurrences(a, key), Occurrences(b, key);
    KeysAreKeys(a + b, key);
    OccurrencesConcat(a, b, key);
    RowsOfRows(Keys(a + b), a, b, key);
    KeyRowsKey(key, va, vb, Longer(va, vb));
  }

  // ----- conservation -----

  /** A's parameters as the rows hold them. */
  function SideA(rows: seq<Change>): seq<Param> {
    if rows == [] then []
    else
      var r := rows[|rows|-1];
      SideA(rows[..|rows|-1]) + if r.kind == Added then [] else [Param(r.key, r.a, r.indexA)]
  }

  function SideB(rows: seq<Change>): seq<Param> {
    if rows == [] then []
    else
      var r := rows[|rows|-1];
      SideB(rows[..|rows|-1]) + if r.kind == Removed then [] else [Param(r.key, r.b, r.indexB)]
  }

  lemma {:induction false} SidesConcat(r: seq<Change>, s: seq<Change>)
    ensures SideA(r + s) == SideA(r) + SideA(s) && SideB(r + s) == SideB(r) + SideB(s)
  {
    if s == [] {
      assert r + s == r;
    } else {
      assert (r + s)[..|r + s|-1] == r + s[..|s|-1];
      SidesConcat(r, s[..|s|-1]);
    }
  }

  lemma {:induction false} KeyOfOccurrence(ps: seq<Param>, key: string)
    ensures forall p :: p in Occurrences(ps, key) <==> p in ps && p.key == key
  {
    if ps != [] {
      KeyOfOccurrence(ps[..|ps|-1], key);
      assert forall p :: p in ps <==> p in ps[..|ps|-1] || p == ps[|ps|-1];
    }
  }

  function First(va: seq<Param>, n: nat): seq<Param> {
    va[..if n < |va| then n else |va|]
  }

  lemma {:induction false} KeyRowsSides(key: string, va: seq<Param>, vb: seq<Param>, n: nat)
    requires n <= Longer(va, vb)
    requires forall p :: p in va || p in vb ==> p.key == key
    ensures SideA(KeyRows(key, va, vb, n)) == First(va, n)
    ensures SideB(KeyRows(key, va, vb, n)) == First(vb, n)
  {
    hide Row, SideA, SideB;
    if n == 0 {
      NoSides();
    } else {
      KeyRowsSides(key, va, vb, n - 1);
      var init, r := KeyRows(key, va, vb, n - 1), Row(key, va, vb, n - 1);
      RowSides(key, va, vb, n - 1);
      SidesConcat(init, [r]);
      assert First(va, n) == First(va, n - 1) + if n <= |va| then [va[n-1]] else [];
      assert First(vb, n) == First(vb, n - 1) + if n <= |vb| then [vb[n-1]] else [];
    }
  }

  lemma NoSides()
    ensures SideA([]) == [] && SideB([]) == []
  {
  }

  lemma RowSides(key: string, va: seq<Param>, vb: seq<Param>, i: nat)
    requires i < |va| || i < |vb|
    requires forall p :: p in va || p in vb ==> p.key == key
    ensures SideA([Row(key, va, vb, i)]) == if i < |va| then [va[i]] else []
    ensures SideB([Row(key, va, vb, i)]) == if i < |vb| then [vb[i]] else []
  {
    var r := Row(key, va, vb, i);
    assert [r][..0] == [];
    if i < |va| { assert va[i] in va; }
    if i < |vb| { assert vb[i] in vb; }
  }

  /** The parameters of several keys, key by key. */
  function Gathered(keys: seq<string>, ps: seq<Param>): seq<Param> {
    if keys == [] then [] else Gathered(keys[..|keys|-1], ps) + Occurrences(ps, keys[|keys|-1])
  }

  lemma AllRowsSides(a: seq<Param>, b: seq<Param>, key: string)
    ensures SideA(AllRows(a, b, key)) == Occurrences(a, key) && SideB(AllRows(a, b, key)) == Occurrences(b, key)
  {
    var va, vb := Occurrences(a, key), Occurrences(b, key);
    KeyOfOccurrence(a, key);
    KeyOfOccurrence(b, key);
    KeyRowsSides(key, va, vb, Longer(va, vb));
    assert First(va, Longer(va, vb)) == va && First(vb, Longer(va, vb)) == vb;
    hide KeyRows, SideA, SideB, Occurrences;
  }

  lemma NoneGathered(a: seq<Param>, b: seq<Param>)
    ensures SideA(Rows([], a, b)) == Gathered([], a) && SideB(Rows([], a, b)) == Gathered([], b)
  {
  }

  lemma GatheredLast(keys: seq<string>, ps: seq<Param>)
    requires keys != []
    ensures Gathered(keys, ps) == Gathered(keys[..|keys|-1], ps) + Occurrences(ps, keys[|keys|-1])
  {
  }

  lemma {:induction false} RowsSides(keys: seq<string>, a: seq<Param>, b: seq<Param>)
    ensures SideA(Rows(keys, a, b)) == Gathered(keys, a)
    ensures SideB(Rows(keys, a, b)) == Gathered(keys, b)
  {
    hide *;
    if keys == [] {
      NoneGathered(a, b);
    } else {
      var init, key := keys[..|keys|-1], keys[|keys|-1];
      RowsSides(init, a, b);
      RowsNext(keys, a, b);
      AllRowsSides(a, b, key);
      SidesConcat(Rows(init, a, b), AllRows(a, b, key));
      GatheredLast(keys, a);
      GatheredLast(keys, b);
    }
  }

  lemma OccurrencesSnoc(ps: seq<Param>, p: Param, key: string)
    ensures Occurrences(ps + [p], key) == Occurrences(ps, key) + if p.key == key then [p] else []
  {
    assert (ps + [p])[..|ps|] == ps;
  }

  lemma GatheredNext(keys: seq<string>, ps: seq<Param>)
    requires keys != []
    ensures multiset(Gathered(keys, ps)) ==
            multiset(Gathered(keys[..|keys|-1], ps)) + multiset(Occurrences(ps, keys[|keys|-1]))
  {
    GatheredLast(keys, ps);
  }

  lemma {:induction false} GatherOne(keys: seq<string>, ps: seq<Param>, p: Param)
    requires Distinct(keys)
    ensures multiset(Gathered(keys, ps + [p])) ==
            multiset(Gathered(keys, ps)) + if p.key in keys then multiset{p} else multiset{}
  {
    if keys == [] {
      assert Gathered(keys, ps + [p]) == [] == Gathered(keys, ps);
    } else {
      var init, last := keys[..|keys|-1], keys[|keys|-1];
      assert Distinct(init) && last !in init;
      assert p.key in keys <==> p.key in init || p.key == last;
      hide *;
      GatherOne(init, ps, p);
      OccurrencesSnoc(ps, p, last);
      GatheredNext(keys, ps);
      GatheredNext(keys, ps + [p]);
      AddsUp(multiset(Gathered(init, ps)), Occurrences(ps, last), p, p.key in init, p.key == last);
    }
  }

  lemma AddsUp(x: multiset<Param>, ys: seq<Param>, p: Param, left: bool, right: bool)
    requires !(left && right)
    ensures (x + if left then multiset{p} else multiset{}) + multiset(ys + if right then [p] else []) ==
            (x + multiset(ys)) + if left || right then multiset{p} else multiset{}
  {
    if !right {
      assert ys + [] == ys;
    }
  }

  lemma {:induction false} GatherAll(keys: seq<string>, ps: seq<Param>)
    requires Distinct(keys) && forall p :: p in ps ==> p.key in keys
    ensures multiset(Gathered(keys, ps)) == multiset(ps)
  {
    if ps == [] {
      GatherNone(keys);
    } else {
      var init, last := ps[..|ps|-1], ps[|ps|-1];
      assert ps == init + [last] && last in ps;
      GatherAll(keys, init);
      GatherOne(keys, init, last);
    }
  }

  lemma {:induction false} GatherNone(keys: seq<string>)
    ensures Gathered(keys, []) == []
  {
    if keys != [] {
      GatherNone(keys[..|keys|-1]);
    }
  }

  /** Every parameter of A, and every one of B, lands in exactly one row. */
  lemma RowsConserve(a: seq<Param>, b: seq<Param>)
    ensures multiset(SideA(Paired(a, b))) == multiset(a)
    ensures multiset(SideB(Paired(a, b))) == multiset(b)
  {
    var keys := Keys(a + b);
    RowsSides(keys, a, b);
    KeysAreKeys(a + b, "");
    forall p | p in a + b ensures p.key in keys {
      KeysAreKeys(a + b, p.key);
    }
    GatherAll(keys, a);
    GatherAll(keys, b);
  }
}
