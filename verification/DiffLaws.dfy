/** What a finished comparison says about two parameter lists whose positions rise along each. */
module DiffLaws {
  import opened RisingRun
  import opened ParamDiff
  import opened DiffMoves

  /** Positions strictly increase along a parsed list. */
  ghost predicate Indexed(ps: seq<Param>) {
    forall i, j :: 0 <= i < j < |ps| ==> ps[i].index < ps[j].index
  }

  /** The ordered lists of (key, decoded value) agree. */
  ghost predicate SamePairs(a: seq<Param>, b: seq<Param>) {
    |a| == |b| && forall i :: 0 <= i < |a| ==> a[i].key == b[i].key && a[i].value == b[i].value
  }

  ghost predicate AllSame(rows: seq<Change>) {
    forall i :: 0 <= i < |rows| ==> rows[i].kind == Same
  }

  // ----- rows and their parameters -----

  /** An unchanged row pairs a parameter of A with one of B that has the same key and value. */
  ghost predicate Pairs(r: Change, p: Param, q: Param) {
    r == Change(p.key, Same, p.value, q.value, p.index, q.index) && p.key == q.key && p.value == q.value
  }

  lemma SameRowPairs(a: seq<Param>, b: seq<Param>, r: Change) returns (p: Param, q: Param)
    requires r in Paired(a, b) && r.kind == Same
    ensures p in a && q in b && Pairs(r, p, q)
  {
    PairedAre(a, b, r);
    var key, i :| IsRow(a, b, r, key, i);
    var va, vb := Occurrences(a, key), Occurrences(b, key);
    p, q := va[i], vb[i];
    KeyOfOccurrence(a, key);
    KeyOfOccurrence(b, key);
    assert p in va && q in vb;
  }

  lemma RowKinds(a: seq<Param>, b: seq<Param>, r: Change)
    requires r in Paired(a, b)
    ensures r.kind != Moved
  {
    PairedAre(a, b, r);
  }

  lemma {:induction false} SideAMembers(rows: seq<Change>, i: int)
    requires 0 <= i < |rows| && rows[i].kind != Added
    ensures Param(rows[i].key, rows[i].a, rows[i].indexA) in SideA(rows)
  {
    if i < |rows| - 1 {
      SideAMembers(rows[..|rows|-1], i);
    }
  }

  /** Two rows never hold the same parameter of A. */
  lemma RowsDifferInA(a: seq<Param>, b: seq<Param>, i: int, j: int)
    requires Indexed(a) && 0 <= i < j < |Paired(a, b)|
    requires Paired(a, b)[i].kind == Same && Paired(a, b)[j].kind == Same
    ensures Paired(a, b)[i].indexA != Paired(a, b)[j].indexA
  {
    var rows := Paired(a, b);
    hide Paired;
    var p, _ := SameRowPairs(a, b, rows[i]);
    var q, _ := SameRowPairs(a, b, rows[j]);
    if p.index == q.index {
      assert p == q by { IndexTells(a, p, q); }
      assert rows == rows[..j] + rows[j..];
      SidesConcat(rows[..j], rows[j..]);
      SideAMembers(rows[..j], i);
      SideAMembers(rows[j..], 0);
      assert multiset(SideA(rows))[p] >= 2;
      RowsConserve(a, b);
      IndexedOnce(a, p);
    }
  }

  lemma IndexTells(a: seq<Param>, p: Param, q: Param)
    requires Indexed(a) && p in a && q in a && p.index == q.index
    ensures p == q
  {
  }

  lemma {:induction false} IndexedOnce(a: seq<Param>, p: Param)
    requires Indexed(a)
    ensures multiset(a)[p] <= 1
  {
    if a != [] {
      var init, last := a[..|a|-1], a[|a|-1];
      assert a == init + [last];
      IndexedOnce(init, p);
      if p in init {
        assert p.index < last.index;
      }
    }
  }

  /** The points of a comparison, in A order. */
  ghost function PointsOf(a: seq<Param>, b: seq<Param>): seq<Point> {
    Points(Paired(a, b), Order(Paired(a, b)))
  }

  lemma PointsSorted(a: seq<Param>, b: seq<Param>)
    requires Indexed(a)
    ensures Sorted(PointsOf(a, b))
  {
    var rows := Paired(a, b);
    var order := Order(rows);
    OrderIs(rows);
    hide Paired, Order;
    forall i, j | 0 <= i < j < |order| ensures rows[order[i]].indexA < rows[order[j]].indexA {
      assert order[i] in order && order[j] in order;
      if order[i] < order[j] {
        RowsDifferInA(a, b, order[i], order[j]);
      } else {
        RowsDifferInA(a, b, order[j], order[i]);
      }
    }
  }

  // ----- no differences means equal lists -----

  lemma HeadIn(s: seq<Param>)
    ensures s != [] ==> s[0] in s
  {
  }

  /** Lists sorted by position that hold the same parameters are equal. */
  lemma {:induction false} SortedListsEqual(x: seq<Param>, y: seq<Param>)
    requires Indexed(x) && Indexed(y) && forall p :: p in x <==> p in y
    ensures x == y
    decreases |x|
  {
    HeadIn(x);
    HeadIn(y);
    if x != [] {
      var j :| 0 <= j < |y| && y[j] == x[0];
      var i :| 0 <= i < |x| && x[i] == y[0];
      assert x[0] == y[0];
      forall p ensures p in x[1..] <==> p in y[1..] {
        if p in x[1..] {
          assert p in x && x[0].index < p.index;
        }
        if p in y[1..] {
          assert p in y && y[0].index < p.index;
        }
      }
      SortedListsEqual(x[1..], y[1..]);
    }
  }

  /** When every unchanged row is kept, B rises along the whole order. */
  lemma AllKeptRises(pts: seq<Point>, c: seq<int>)
    requires Chain(pts, c) && forall k :: 0 <= k < |pts| ==> k in c
    ensures forall i, j :: 0 <= i < j < |pts| ==> pts[i].b < pts[j].b
  {
    forall i, j | 0 <= i < j < |pts| ensures pts[i].b < pts[j].b {
      assert i in c && j in c;
      var x :| 0 <= x < |c| && c[x] == i;
      var y :| 0 <= y < |c| && c[y] == j;
      if x < y {
        ChainRises(pts, c, x, y);
      } else {
        ChainRises(pts, c, y, x);
      }
    }
  }

  lemma {:induction false} ChainRises(pts: seq<Point>, c: seq<int>, x: int, y: int)
    requires Chain(pts, c) && 0 <= x <= y < |c|
    ensures x < y ==> c[x] < c[y] && pts[c[x]].b < pts[c[y]].b
    decreases y - x
  {
    if x < y {
      ChainRises(pts, c, x, y - 1);
    }
  }

  /** The A sides of some rows, in the given order. */
  ghost function ReadA(rows: seq<Change>, order: seq<int>): seq<Param>
    requires InRange(rows, order)
  {
    seq(|order|, k requires 0 <= k < |order| => Param(rows[order[k]].key, rows[order[k]].a, rows[order[k]].indexA))
  }

  ghost function ReadB(rows: seq<Change>, order: seq<int>): seq<Param>
    requires InRange(rows, order)
  {
    seq(|order|, k requires 0 <= k < |order| => Param(rows[order[k]].key, rows[order[k]].b, rows[order[k]].indexB))
  }

  lemma {:induction false} AllSameSides(rows: seq<Change>)
    requires AllSame(rows)
    ensures |SideA(rows)| == |rows| == |SideB(rows)|
    ensures forall i :: 0 <= i < |rows| ==>
      && SideA(rows)[i] == Param(rows[i].key, rows[i].a, rows[i].indexA)
      && SideB(rows)[i] == Param(rows[i].key, rows[i].b, rows[i].indexB)
  {
    if rows != [] {
      var init, r := rows[..|rows|-1], rows[|rows|-1];
      AllSameSides(init);
      assert r.kind == Same;
      assert SideA(rows) == SideA(init) + [Param(r.key, r.a, r.indexA)];
      assert SideB(rows) == SideB(init) + [Param(r.key, r.b, r.indexB)];
      assert forall i :: 0 <= i < |init| ==> rows[i] == init[i];
    }
  }

  lemma InMultiset<T>(x: seq<T>, y: seq<T>)
    requires multiset(x) == multiset(y)
    ensures forall p :: p in x <==> p in y
  {
    forall p ensures p in x <==> p in y {
      assert p in x <==> p in multiset(x);
      assert p in y <==> p in multiset(y);
    }
  }

  /** One side read in an order that takes every row once, positions rising, is the list itself. */
  lemma ReadIsList(side: seq<Param>, order: seq<int>, read: seq<Param>, list: seq<Param>)
    requires |read| == |order| && forall k :: 0 <= k < |order| ==> 0 <= order[k] < |side| && read[k] == side[order[k]]
    requires forall i :: 0 <= i < |side| ==> i in order
    requires forall p :: p in side <==> p in list
    requires Indexed(read) && Indexed(list)
    ensures read == list
  {
    forall p ensures p in read <==> p in list {
      if p in read {
        var k :| 0 <= k < |read| && read[k] == p;
        assert side[order[k]] in side;
      }
      if p in list {
        var i :| 0 <= i < |side| && side[i] == p;
        assert i in order;
        var k :| 0 <= k < |order| && order[k] == i;
        assert read[k] in read;
      }
    }
    SortedListsEqual(read, list);
  }

  lemma OrderIsWhole(rows: seq<Change>)
    requires AllSame(rows)
    ensures forall i :: 0 <= i < |rows| ==> i in Order(rows)
  {
    OrderIs(rows);
  }

  /** With only unchanged rows, reading them in order gives back both lists. */
  lemma ReadBack(a: seq<Param>, b: seq<Param>)
    requires Indexed(a) && Indexed(b) && AllSame(Paired(a, b))
    requires forall i, j :: 0 <= i < j < |PointsOf(a, b)| ==> PointsOf(a, b)[i].b < PointsOf(a, b)[j].b
    ensures ReadA(Paired(a, b), Order(Paired(a, b))) == a
    ensures ReadB(Paired(a, b), Order(Paired(a, b))) == b
  {
    var rows := Paired(a, b);
    var order := Order(rows);
    hide *;
    PointsSorted(a, b);
    OrderIsWhole(rows);
    RowsConserve(a, b);
    InMultiset(SideA(rows), a);
    InMultiset(SideB(rows), b);
    ReadSides(a, b);
    ReadIsList(SideA(rows), order, ReadA(rows, order), a);
    ReadIsList(SideB(rows), order, ReadB(rows, order), b);
  }

  lemma ReadSides(a: seq<Param>, b: seq<Param>)
    requires AllSame(Paired(a, b)) && Sorted(PointsOf(a, b))
    requires forall i, j :: 0 <= i < j < |PointsOf(a, b)| ==> PointsOf(a, b)[i].b < PointsOf(a, b)[j].b
    ensures var rows := Paired(a, b); var order := Order(rows);
            && |SideA(rows)| == |SideB(rows)| == |rows| && |ReadA(rows, order)| == |ReadB(rows, order)| == |order|
            && (forall k :: 0 <= k < |order| ==>
                  && 0 <= order[k] < |rows|
                  && ReadA(rows, order)[k] == SideA(rows)[order[k]] && ReadB(rows, order)[k] == SideB(rows)[order[k]])
            && Indexed(ReadA(rows, order)) && Indexed(ReadB(rows, order))
  {
    var rows := Paired(a, b);
    var order := Order(rows);
    AllSameSides(rows);
    hide Paired, Order, SideA, SideB;
    var pts, ra, rb := PointsOf(a, b), ReadA(rows, order), ReadB(rows, order);
    assert forall k :: 0 <= k < |order| ==> ra[k].index == pts[k].a && rb[k].index == pts[k].b;
  }

  /** If marking left only unchanged rows, nothing else was there before and every position was kept. */
  lemma AllSameBefore(a: seq<Param>, b: seq<Param>, rows: seq<Change>, c: seq<int>)
    requires MarkedBy(Paired(a, b), rows, c) && AllSame(rows)
    ensures AllSame(Paired(a, b))
    ensures forall k :: 0 <= k < |Order(Paired(a, b))| ==> k in c
  {
    var before := Paired(a, b);
    var order := Order(before);
    hide Paired, Order;
    forall k | 0 <= k < |order| ensures k in c {
      assert rows[order[k]].kind == Same;
    }
    forall i | 0 <= i < |before| ensures before[i].kind == Same {
      assert before[i].kind != Same ==> rows[i] == before[i];
    }
  }

  lemma NoDifferenceMeansEqual(a: seq<Param>, b: seq<Param>, rows: seq<Change>)
    requires Indexed(a) && Indexed(b) && Marked(Paired(a, b), rows) && AllSame(rows)
    ensures SamePairs(a, b)
  {
    var before := Paired(a, b);
    var order := Order(before);
    hide Paired, Order, Optimal, MarkedBy;
    var c :| Optimal(Points(before, order), c) && MarkedBy(before, rows, c);
    AllSameBefore(a, b, rows, c);
    OptimalIsChain(Points(before, order), c);
    AllKeptRises(PointsOf(a, b), c);
    ReadBack(a, b);
    hide Chain;
    forall k | 0 <= k < |a| ensures a[k].key == b[k].key && a[k].value == b[k].value {
      assert a[k] == ReadA(before, order)[k] && b[k] == ReadB(before, order)[k];
      assert before[order[k]] in before;
      var p, q := SameRowPairs(a, b, before[order[k]]);
    }
  }

  lemma OptimalIsChain(pts: seq<Point>, c: seq<int>)
    requires Optimal(pts, c)
    ensures Chain(pts, c)
  {
  }

  // ----- equal lists mean no differences -----

  /** The i-th occurrence of a key is at the same place in lists with the same pairs. */
  lemma {:induction false} OccurrencesAligned(a: seq<Param>, b: seq<Param>, key: string)
    requires SamePairs(a, b)
    ensures |Occurrences(a, key)| == |Occurrences(b, key)|
    ensures forall i :: 0 <= i < |Occurrences(a, key)| ==>
      exists p :: 0 <= p < |a| && Occurrences(a, key)[i] == a[p] && Occurrences(b, key)[i] == b[p]
    decreases |a|
  {
    if a != [] {
      var n := |a| - 1;
      OccurrencesAligned(a[..n], b[..n], key);
      forall i | 0 <= i < |Occurrences(a, key)|
        ensures exists p :: 0 <= p < |a| && Occurrences(a, key)[i] == a[p] && Occurrences(b, key)[i] == b[p]
      {
        if i < |Occurrences(a[..n], key)| {
          var p :| 0 <= p < n && Occurrences(a[..n], key)[i] == a[..n][p] && Occurrences(b[..n], key)[i] == b[..n][p];
          assert Occurrences(a, key)[i] == a[p];
        } else {
          assert Occurrences(a, key)[i] == a[n] && Occurrences(b, key)[i] == b[n];
        }
      }
    }
  }

  lemma EqualListsRow(a: seq<Param>, b: seq<Param>, r: Change) returns (p: int)
    requires SamePairs(a, b) && r in Paired(a, b)
    ensures 0 <= p < |a| && Pairs(r, a[p], b[p])
  {
    PairedAre(a, b, r);
    var key, i :| IsRow(a, b, r, key, i);
    OccurrencesAligned(a, b, key);
    p :| 0 <= p < |a| && Occurrences(a, key)[i] == a[p] && Occurrences(b, key)[i] == b[p];
    KeyOfOccurrence(a, key);
    assert a[p] in Occurrences(a, key);
  }

  lemma EqualListsRise(a: seq<Param>, b: seq<Param>)
    requires Indexed(a) && Indexed(b) && SamePairs(a, b)
    ensures forall i :: 0 < i < |PointsOf(a, b)| ==> PointsOf(a, b)[i-1].b < PointsOf(a, b)[i].b
  {
    var before := Paired(a, b);
    var order := Order(before);
    var pts := PointsOf(a, b);
    PointsSorted(a, b);
    hide Paired, Order;
    forall i | 0 < i < |pts| ensures pts[i-1].b < pts[i].b {
      assert before[order[i-1]] in before && before[order[i]] in before;
      var p := EqualListsRow(a, b, before[order[i-1]]);
      var q := EqualListsRow(a, b, before[order[i]]);
      assert pts[i-1].a < pts[i].a;
      assert a[p].index < a[q].index;
    }
  }

  lemma EqualListsAllSame(a: seq<Param>, b: seq<Param>)
    requires SamePairs(a, b)
    ensures AllSame(Paired(a, b))
  {
    hide Paired;
    forall i | 0 <= i < |Paired(a, b)| ensures Paired(a, b)[i].kind == Same {
      var p := EqualListsRow(a, b, Paired(a, b)[i]);
    }
  }

  lemma EqualMeansNoDifference(a: seq<Param>, b: seq<Param>, rows: seq<Change>)
    requires Indexed(a) && Indexed(b) && Marked(Paired(a, b), rows) && SamePairs(a, b)
    ensures AllSame(rows)
  {
    var before := Paired(a, b);
    var order := Order(before);
    hide Paired, Order, Optimal;
    var c :| Optimal(Points(before, order), c) && MarkedBy(before, rows, c);
    EqualListsRise(a, b);
    EqualListsAllSame(a, b);
    OrderIsWhole(before);
    assert Points(before, order) == PointsOf(a, b);
    AllRising(PointsOf(a, b), c);
    forall i | 0 <= i < |rows| ensures rows[i].kind == Same {
      assert i in order;
      var k :| 0 <= k < |order| && order[k] == i;
      assert c[k] == k;
    }
  }

  /** The comparison reports nothing but "same" exactly when the ordered lists agree. */
  lemma NoDifferenceIff(a: seq<Param>, b: seq<Param>, rows: seq<Change>)
    requires Indexed(a) && Indexed(b) && Marked(Paired(a, b), rows)
    ensures AllSame(rows) <==> SamePairs(a, b)
  {
    if AllSame(rows) {
      NoDifferenceMeansEqual(a, b, rows);
    }
    if SamePairs(a, b) {
      EqualMeansNoDifference(a, b, rows);
    }
  }

  /** Marking moves keeps every parameter in its row. */
  lemma {:induction false} MarkingKeepsSides(before: seq<Change>, after: seq<Change>)
    requires |before| == |after|
    requires forall i :: 0 <= i < |before| ==>
      after[i] == before[i] || (before[i].kind == Same && after[i] == before[i].(kind := Moved))
    ensures SideA(after) == SideA(before) && SideB(after) == SideB(before)
    decreases |before|
  {
    if before != [] {
      MarkingKeepsSides(before[..|before|-1], after[..|after|-1]);
    }
  }

  lemma MarkedConserves(a: seq<Param>, b: seq<Param>, rows: seq<Change>)
    requires Marked(Paired(a, b), rows)
    ensures multiset(SideA(rows)) == multiset(a) && multiset(SideB(rows)) == multiset(b)
  {
    var before := Paired(a, b);
    var order := Order(before);
    var c :| Optimal(Points(before, order), c) && MarkedBy(before, rows, c);
    OrderIs(before);
    forall i | 0 <= i < |before|
      ensures rows[i] == before[i] || (before[i].kind == Same && rows[i] == before[i].(kind := Moved))
    {
      if before[i].kind == Same {
        assert i in order;
        var k :| 0 <= k < |order| && order[k] == i;
      }
    }
    MarkingKeepsSides(before, rows);
    RowsConserve(a, b);
  }

  /** What a finished row says of its two parameters: each row is one of the paired ones, "moved" where that was "same",
      and so two different values are called modified and nothing else, two equal ones same or moved. */
  lemma MarkedRowsAre(a: seq<Param>, b: seq<Param>, rows: seq<Change>, i: nat)
    requires Marked(Paired(a, b), rows) && i < |rows|
    ensures var r := rows[i];
      && (exists key, n :: IsRow(a, b, Unmoved(r), key, n))
      && (r.kind == Modified ==> r.a != r.b)
      && (r.kind == Same || r.kind == Moved ==> r.a == r.b)
    ensures |rows| == |Paired(a, b)|
  {
    var before := Paired(a, b);
    var order := Order(before);
    hide Paired, Order, Optimal, IsRow;
    var c :| Optimal(Points(before, order), c) && MarkedBy(before, rows, c);
    OrderIs(before);
    assert before[i] in before;
    PairedAre(a, b, before[i]);
    var key, n :| IsRow(a, b, before[i], key, n);
    RowSays(a, b, before[i], key, n);
    if before[i].kind == Same {
      assert i in order;
      var k :| 0 <= k < |order| && order[k] == i;
    }
    assert rows[i] == before[i] || (before[i].kind == Same && rows[i] == before[i].(kind := Moved));
    assert IsRow(a, b, Unmoved(rows[i]), key, n);
  }

  function Unmoved(r: Change): Change { if r.kind == Moved then r.(kind := Same) else r }

  lemma RowSays(a: seq<Param>, b: seq<Param>, r: Change, key: string, n: int)
    requires IsRow(a, b, r, key, n)
    ensures r.kind != Moved && (r.kind == Modified ==> r.a != r.b) && (r.kind == Same ==> r.a == r.b)
  {
  }

  // ----- swapping the two sides -----

  ghost function MovedSet(rows: seq<Change>): set<int> {
    set i | 0 <= i < |rows| && rows[i].kind == Moved
  }

  ghost function Elements(s: seq<int>): set<int> {
    set x | x in s
  }

  lemma {:induction false} DistinctSize(s: seq<int>)
    requires Distinct(s)
    ensures |Elements(s)| == |s|
  {
    if s != [] {
      var init, last := s[..|s|-1], s[|s|-1];
      DistinctSize(init);
      assert last !in init;
      assert Elements(s) == Elements(init) + {last};
    }
  }

  ghost function Upto(n: nat): (r: set<int>)
    ensures forall i :: i in r <==> 0 <= i < n
    ensures |r| == n
  {
    if n == 0 then {} else Upto(n - 1) + {n - 1}
  }

  ghost function Picked(order: seq<int>, c: seq<int>): seq<int>
    requires forall k :: 0 <= k < |c| ==> 0 <= c[k] < |order|
  {
    seq(|c|, k requires 0 <= k < |c| => order[c[k]])
  }

  lemma PickedDistinct(pts: seq<Point>, order: seq<int>, c: seq<int>)
    requires Chain(pts, c) && |pts| == |order| && Distinct(order)
    ensures Distinct(Picked(order, c)) && Elements(Picked(order, c)) <= Elements(order)
  {
    forall i, j | 0 <= i < j < |c| ensures Picked(order, c)[i] != Picked(order, c)[j] {
      ChainRises(pts, c, i, j);
    }
  }

  /** Moves are the unchanged rows less the kept ones. */
  lemma MovedNumber(a: seq<Param>, b: seq<Param>, rows: seq<Change>, c: seq<int>)
    requires Optimal(PointsOf(a, b), c) && MarkedBy(Paired(a, b), rows, c)
    ensures |MovedSet(rows)| == |PointsOf(a, b)| - |c|
  {
    var before := Paired(a, b);
    var order := Order(before);
    OrderIs(before);
    OptimalIsChain(PointsOf(a, b), c);
    PickedDistinct(PointsOf(a, b), order, c);
    DistinctSize(order);
    DistinctSize(Picked(order, c));
    MovedAre(a, b, rows, c);
  }

  lemma MovedAre(a: seq<Param>, b: seq<Param>, rows: seq<Change>, c: seq<int>)
    requires Chain(PointsOf(a, b), c) && MarkedBy(Paired(a, b), rows, c)
    ensures MovedSet(rows) == Elements(Order(Paired(a, b))) - Elements(Picked(Order(Paired(a, b)), c))
  {
    var before := Paired(a, b);
    var order := Order(before);
    var picked := Picked(order, c);
    OrderIs(before);
    hide Paired, Order;
    forall i ensures i in MovedSet(rows) <==> i in order && i !in picked {
      if i in order {
        var k :| 0 <= k < |order| && order[k] == i;
        if k in c {
          var j :| 0 <= j < |c| && c[j] == k;
          assert picked[j] == i;
        }
        if i in picked {
          var j :| 0 <= j < |picked| && picked[j] == i;
          assert order[c[j]] == order[k] && c[j] == k;
        }
      } else if i in MovedSet(rows) {
        assert before[i] in before;
        RowKinds(a, b, before[i]);
      }
    }
  }

  /** Each unchanged row seen from the other side. */
  lemma SidesMirror(a: seq<Param>, b: seq<Param>)
    ensures Mirrors(PointsOf(a, b), PointsOf(b, a))
  {
    var rows, rows' := Paired(a, b), Paired(b, a);
    var order, order' := Order(rows), Order(rows');
    OrderIs(rows);
    OrderIs(rows');
    hide Paired, Order;
    forall k | 0 <= k < |order| ensures Swap(PointsOf(a, b)[k]) in PointsOf(b, a) {
      var r := rows[order[k]];
      assert order[k] in order && r in rows && r.kind == Same;
      PairedAre(a, b, r);
      var key, i :| IsRow(a, b, r, key, i);
      var r' := Change(key, Same, r.b, r.a, r.indexB, r.indexA);
      assert IsRow(b, a, r', key, i);
      PairedAre(b, a, r');
      var j :| 0 <= j < |rows'| && rows'[j] == r';
      assert j in order';
      var k' :| 0 <= k' < |order'| && order'[k'] == j;
      assert PointsOf(b, a)[k'] == Swap(PointsOf(a, b)[k]);
    }
  }

  lemma MirrorSize(pts: seq<Point>, pts': seq<Point>)
    requires Sorted(pts) && Mirrors(pts, pts')
    ensures |pts| <= |pts'|
  {
    var places := seq(|pts|, i requires 0 <= i < |pts| => PlaceOf(pts', Swap(pts[i])));
    forall i, j | 0 <= i < j < |pts| ensures places[i] != places[j] {
      assert pts'[places[i]] == Swap(pts[i]) && pts'[places[j]] == Swap(pts[j]);
    }
    DistinctSize(places);
    assert Elements(places) <= Upto(|pts'|);
    SubsetSize(Elements(places), Upto(|pts'|));
  }

  lemma SubsetSize(x: set<int>, y: set<int>)
    requires x <= y
    ensures |x| <= |y|
  {
    assert y == x + (y - x);
  }

  /** Comparing B with A instead marks as many moves. */
  lemma SwapKeepsMoves(a: seq<Param>, b: seq<Param>, rows: seq<Change>, rows': seq<Change>)
    requires Indexed(a) && Indexed(b) && Marked(Paired(a, b), rows) && Marked(Paired(b, a), rows')
    ensures |MovedSet(rows)| == |MovedSet(rows')|
  {
    hide Paired, Order, Optimal, MarkedBy;
    var c :| Optimal(Points(Paired(a, b), Order(Paired(a, b))), c) && MarkedBy(Paired(a, b), rows, c);
    var c' :| Optimal(Points(Paired(b, a), Order(Paired(b, a))), c') && MarkedBy(Paired(b, a), rows', c');
    MovedNumber(a, b, rows, c);
    MovedNumber(b, a, rows', c');
    PointsSorted(a, b);
    PointsSorted(b, a);
    SidesMirror(a, b);
    SidesMirror(b, a);
    MirrorSize(PointsOf(a, b), PointsOf(b, a));
    MirrorSize(PointsOf(b, a), PointsOf(a, b));
    MirrorOptimal(PointsOf(a, b), PointsOf(b, a), c, c');
  }
}
