/** Naming the moves among unchanged parameters, and what the finished comparison says about two lists. */
module DiffMoves {
  import opened RisingRun
  import opened ParamDiff

  // ----- the unchanged rows in A order -----

  /** Positions of the unchanged rows among the first n. */
  function SamePositions(cs: seq<Change>, n: nat): (r: seq<int>)
    requires n <= |cs|
    ensures forall i :: i in r <==> 0 <= i < n && cs[i].kind == Same
  {
    if n == 0 then [] else SamePositions(cs, n - 1) + if cs[n-1].kind == Same then [n - 1] else []
  }

  predicate InRange(cs: seq<Change>, order: seq<int>) {
    forall k :: 0 <= k < |order| ==> 0 <= order[k] < |cs|
  }

  /** Puts i behind every position whose A index is not greater. */
  function Insert(cs: seq<Change>, order: seq<int>, i: int): (r: seq<int>)
    requires InRange(cs, order) && 0 <= i < |cs|
    ensures InRange(cs, r)
  {
    if order == [] || cs[order[|order|-1]].indexA <= cs[i].indexA then order + [i]
    else
      assert InRange(cs, order[..|order|-1]);
      Insert(cs, order[..|order|-1], i) + [order[|order|-1]]
  }

  /** The order sorting by A index gives. */
  function SortByA(cs: seq<Change>, order: seq<int>): (r: seq<int>)
    requires InRange(cs, order)
    ensures InRange(cs, r)
  {
    if order == [] then []
    else
      assert InRange(cs, order[..|order|-1]);
      Insert(cs, SortByA(cs, order[..|order|-1]), order[|order|-1])
  }

  /** The unchanged rows, in A order. */
  function Order(cs: seq<Change>): (r: seq<int>)
    ensures InRange(cs, r)
  {
    var same := SamePositions(cs, |cs|);
    assert forall k :: 0 <= k < |same| ==> same[k] in same;
    SortByA(cs, same)
  }

  ghost predicate AscendingA(cs: seq<Change>, order: seq<int>) {
    InRange(cs, order) && forall j, k :: 0 <= j < k < |order| ==> cs[order[j]].indexA <= cs[order[k]].indexA
  }

  lemma {:induction false} InsertKeeps(cs: seq<Change>, order: seq<int>, i: int)
    requires InRange(cs, order) && 0 <= i < |cs|
    ensures multiset(Insert(cs, order, i)) == multiset(order) + multiset{i}
    decreases |order|
  {
    if order != [] && cs[order[|order|-1]].indexA > cs[i].indexA {
      var init, last := order[..|order|-1], order[|order|-1];
      assert InRange(cs, init);
      InsertKeeps(cs, init, i);
      assert order == init + [last];
      assert multiset(order) == multiset(init) + multiset{last};
      assert Insert(cs, order, i) == Insert(cs, init, i) + [last];
    }
  }

  lemma {:induction false} InsertSorts(cs: seq<Change>, order: seq<int>, i: int)
    requires AscendingA(cs, order) && 0 <= i < |cs|
    ensures AscendingA(cs, Insert(cs, order, i))
    decreases |order|
  {
    AscendingInit(cs, order);
    hide AscendingA;
    if order != [] && cs[order[|order|-1]].indexA > cs[i].indexA {
      var init, last := order[..|order|-1], order[|order|-1];
      InsertSorts(cs, init, i);
      InsertKeeps(cs, init, i);
      assert order == init + [last];
      InsertAdds(cs, init, i, last);
    } else {
      InsertLast(cs, order, i);
    }
  }

  lemma InsertLast(cs: seq<Change>, order: seq<int>, i: int)
    requires AscendingA(cs, order) && 0 <= i < |cs|
    requires order == [] || cs[order[|order|-1]].indexA <= cs[i].indexA
    ensures AscendingA(cs, order + [i])
  {
  }

  lemma InsertAdds(cs: seq<Change>, init: seq<int>, i: int, last: int)
    requires AscendingA(cs, init) && 0 <= i < |cs| && 0 <= last < |cs|
    requires AscendingA(cs, Insert(cs, init, i)) && multiset(Insert(cs, init, i)) == multiset(init) + multiset{i}
    requires cs[i].indexA <= cs[last].indexA && AscendingA(cs, init + [last])
    ensures AscendingA(cs, Insert(cs, init, i) + [last])
  {
    hide Insert;
    var r := Insert(cs, init, i);
    forall k | 0 <= k < |r| ensures cs[r[k]].indexA <= cs[last].indexA {
      assert r[k] in multiset(r);
      assert r[k] in init || r[k] == i;
      if r[k] in init {
        var j :| 0 <= j < |init| && init[j] == r[k];
        assert (init + [last])[j] == r[k] && (init + [last])[|init|] == last;
      }
    }
  }

  lemma AscendingInit(cs: seq<Change>, order: seq<int>)
    requires AscendingA(cs, order)
    ensures InRange(cs, order)
    ensures order != [] ==> AscendingA(cs, order[..|order|-1]) && 0 <= order[|order|-1] < |cs|
  {
  }

  lemma {:induction false} SortSorts(cs: seq<Change>, order: seq<int>)
    requires InRange(cs, order)
    ensures AscendingA(cs, SortByA(cs, order))
    ensures multiset(SortByA(cs, order)) == multiset(order)
    decreases |order|
  {
    if order != [] {
      var init, last := order[..|order|-1], order[|order|-1];
      assert order == init + [last];
      SortSorts(cs, init);
      InsertSorts(cs, SortByA(cs, init), last);
      InsertKeeps(cs, SortByA(cs, init), last);
    }
  }

  lemma {:induction false} SamePositionsOnce(cs: seq<Change>, n: nat)
    requires n <= |cs|
    ensures forall i :: multiset(SamePositions(cs, n))[i] <= 1
  {
    if n > 0 {
      SamePositionsOnce(cs, n - 1);
    }
  }

  lemma OnceIsDistinct(s: seq<int>)
    requires forall x :: multiset(s)[x] <= 1
    ensures Distinct(s)
  {
    forall i, j | 0 <= i < j < |s| ensures s[i] != s[j] {
      assert s == s[..j] + s[j..];
      assert multiset(s) == multiset(s[..j]) + multiset(s[j..]);
      assert s[i] in s[..j] && s[j] in s[j..];
      assert multiset(s[..j])[s[i]] >= 1 && multiset(s[j..])[s[j]] >= 1;
      var x := s[i];
      assert multiset(s)[x] <= 1;
    }
  }

  /** The order lists every unchanged row once, A indexes ascending. */
  lemma OrderIs(cs: seq<Change>)
    ensures AscendingA(cs, Order(cs)) && Distinct(Order(cs))
    ensures forall i :: i in Order(cs) <==> 0 <= i < |cs| && cs[i].kind == Same
  {
    var same := SamePositions(cs, |cs|);
    assert forall k :: 0 <= k < |same| ==> same[k] in same;
    SortSorts(cs, same);
    SamePositionsOnce(cs, |cs|);
    OnceIsDistinct(Order(cs));
    forall i ensures i in Order(cs) <==> i in same {
      assert i in Order(cs) <==> i in multiset(Order(cs));
      assert i in same <==> i in multiset(same);
    }
  }

  function Points(cs: seq<Change>, order: seq<int>): (r: seq<Point>)
    requires InRange(cs, order)
    ensures |r| == |order|
  {
    seq(|order|, k requires 0 <= k < |order| => Point(cs[order[k]].indexA, cs[order[k]].indexB))
  }

  // ----- marking -----

  /** after is before with the unchanged rows outside the chain c renamed to moved. */
  ghost predicate MarkedBy(before: seq<Change>, after: seq<Change>, c: seq<int>) {
    var order := Order(before);
    && |after| == |before|
    && (forall k :: 0 <= k < |order| ==>
          after[order[k]] == if k in c then before[order[k]] else before[order[k]].(kind := Moved))
    && (forall i :: 0 <= i < |before| && before[i].kind != Same ==> after[i] == before[i])
  }

  /** Marked along a run that is as long as any and, among those, as exact as any. */
  ghost predicate Marked(before: seq<Change>, after: seq<Change>) {
    exists c :: Optimal(Points(before, Order(before)), c) && MarkedBy(before, after, c)
  }

  /** The first k positions of the order are settled, the rest untouched. */
  ghost predicate PartlyMarked(before: seq<Change>, now: seq<Change>, c: seq<int>, k: nat) {
    var order := Order(before);
    && |now| == |before| && k <= |order|
    && (forall j :: 0 <= j < |order| ==>
          now[order[j]] == if j >= k || j in c then before[order[j]] else before[order[j]].(kind := Moved))
    && (forall i :: 0 <= i < |before| && before[i].kind != Same ==> now[i] == before[i])
  }

  lemma PartlyMarkedMore(before: seq<Change>, now: seq<Change>, c: seq<int>, k: nat)
    requires PartlyMarked(before, now, c, k) && k < |Order(before)|
    ensures now[Order(before)[k]] == before[Order(before)[k]]
    ensures PartlyMarked(before,
                         if k in c then now else now[Order(before)[k] := now[Order(before)[k]].(kind := Moved)],
                         c, k + 1)
  {
    var order := Order(before);
    OrderIs(before);
    hide Order;
    assert order[k] in order;
    assert forall j :: 0 <= j < |order| && j != k ==> order[j] != order[k];
  }

  method MarkMoves(cs: array<Change>)
    modifies cs
    ensures Marked(old(cs[..]), cs[..])
  {
    ghost var before := cs[..];
    var order := Order(cs[..]);
    var kept, chain := Kept(Points(cs[..], order));
    assert PartlyMarked(before, before, chain, 0);
    hide Optimal, Order, PartlyMarked;
    for k := 0 to |order|
      invariant PartlyMarked(before, cs[..], chain, k)
    {
      PartlyMarkedMore(before, cs[..], chain, k);
      if k !in kept {
        ghost var now := cs[..];
        cs[order[k]] := cs[order[k]].(kind := Moved);
        assert cs[..] == now[order[k] := now[order[k]].(kind := Moved)];
      }
    }
    AllMarked(before, cs[..], chain);
  }

  lemma AllMarked(before: seq<Change>, after: seq<Change>, c: seq<int>)
    requires PartlyMarked(before, after, c, |Order(before)|)
    ensures MarkedBy(before, after, c)
  {
  }

  /** The parameter rows of a comparison. */
  method DiffParams(a: seq<Param>, b: seq<Param>) returns (rows: seq<Change>)
    ensures Marked(Paired(a, b), rows)
  {
    hide Marked, Paired;
    var paired := PairUp(a, b);
    var cs := new Change[|paired|](i requires 0 <= i < |paired| => paired[i]);
    assert cs[..] == paired;
    MarkMoves(cs);
    rows := cs[..];
  }

  method HasRealChange(cs: seq<Change>) returns (r: bool)
    ensures r <==> exists c :: c in cs && c.kind != Same
  {
    for i := 0 to |cs|
      invariant forall j :: 0 <= j < i ==> cs[j].kind == Same
    {
      if cs[i].kind != Same {
        assert cs[i] in cs;
        return true;
      }
    }
    return false;
  }

  method OnlyMoves(cs: seq<Change>) returns (moved: bool)
    ensures moved <==>
      (forall c :: c in cs ==> c.kind == Same || c.kind == Moved) && exists c :: c in cs && c.kind == Moved
  {
    moved := false;
    for i := 0 to |cs|
      invariant forall j :: 0 <= j < i ==> cs[j].kind == Same || cs[j].kind == Moved
      invariant moved <==> exists j :: 0 <= j < i && cs[j].kind == Moved
    {
      match cs[i].kind
      case Moved => moved := true;
      case Same =>
      case _ =>
        assert cs[i] in cs;
        return false;
    }
    assert forall c :: c in cs <==> exists j :: 0 <= j < |cs| && cs[j] == c;
  }
}
