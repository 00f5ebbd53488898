/** The longest run of pairs whose B positions rise in A order, ties broken by exact positions. */
module RisingRun {

  /** An unchanged parameter's position in A and in B. */
  datatype Point = Point(a: nat, b: nat)

  predicate Exact(p: Point) { p.a == p.b }

  /** Positions in pts, in order, with strictly rising B. */
  ghost predicate Chain(pts: seq<Point>, c: seq<int>) {
    && (forall k :: 0 <= k < |c| ==> 0 <= c[k] < |pts|)
    && (forall k :: 0 < k < |c| ==> c[k-1] < c[k] && pts[c[k-1]].b < pts[c[k]].b)
  }

  ghost predicate EndsAt(pts: seq<Point>, c: seq<int>, i: int) {
    Chain(pts, c) && c != [] && c[|c|-1] == i
  }

  /** How many exact positions a run of positions holds. */
  ghost function Exacts(pts: seq<Point>, c: seq<int>): nat {
    if c == [] then 0
    else
      var i := c[|c|-1];
      Exacts(pts, c[..|c|-1]) + if 0 <= i < |pts| && Exact(pts[i]) then 1 else 0
  }

  /** Lexicographic order on (length, exact). */
  predicate NoBetter(l: int, e: int, l': int, e': int) {
    l < l' || (l == l' && e <= e')
  }

  /** No chain is longer, and none as long holds more exact positions. */
  ghost predicate Optimal(pts: seq<Point>, c: seq<int>) {
    && Chain(pts, c)
    && forall d :: Chain(pts, d) ==> NoBetter(|d|, Exacts(pts, d), |c|, Exacts(pts, c))
  }

  ghost predicate OptimalEnd(pts: seq<Point>, i: int, c: seq<int>) {
    && EndsAt(pts, c, i)
    && forall d :: EndsAt(pts, d, i) ==> NoBetter(|d|, Exacts(pts, d), |c|, Exacts(pts, c))
  }

  /** For each position so far: the score of an optimal chain ending there, and the link back along it. */
  ghost predicate Filled(pts: seq<Point>, chains: seq<seq<int>>, length: seq<int>, exact: seq<int>, prev: seq<int>) {
    && |chains| == |length| == |exact| == |prev| <= |pts|
    && (forall i :: 0 <= i < |chains| ==>
          && OptimalEnd(pts, i, chains[i]) && length[i] == |chains[i]| && exact[i] == Exacts(pts, chains[i])
          && -1 <= prev[i] < i && chains[i] == (if prev[i] < 0 then [] else chains[prev[i]]) + [i])
  }

  lemma Extend(pts: seq<Point>, c: seq<int>, j: int, i: int)
    requires EndsAt(pts, c, j) && 0 <= j < i < |pts| && pts[j].b < pts[i].b
    ensures EndsAt(pts, c + [i], i)
    ensures Exacts(pts, c + [i]) == Exacts(pts, c) + if Exact(pts[i]) then 1 else 0
  {
    assert (c + [i])[..|c|] == c;
    ExtendChain(pts, c, j, i);
    hide Chain;
  }

  lemma ExtendChain(pts: seq<Point>, c: seq<int>, j: int, i: int)
    requires EndsAt(pts, c, j) && 0 <= j < i < |pts| && pts[j].b < pts[i].b
    ensures Chain(pts, c + [i])
  {
    hide Exacts;
    var d := c + [i];
    assert forall k :: 0 <= k < |c| ==> d[k] == c[k];
    assert d[|c|] == i && d[|c|-1] == j;
  }

  lemma Alone(pts: seq<Point>, i: int)
    requires 0 <= i < |pts|
    ensures EndsAt(pts, [i], i) && Exacts(pts, [i]) == if Exact(pts[i]) then 1 else 0
  {
    assert [i][..0] == [];
  }

  /** A chain ending at i is i alone, or a chain ending earlier and lower, extended. */
  lemma LastStep(pts: seq<Point>, d: seq<int>, i: int)
    requires EndsAt(pts, d, i)
    ensures |d| == 1 ==> d == [i]
    ensures |d| > 1 ==>
      var c, j := d[..|d|-1], d[|d|-2];
      && 0 <= j < i < |pts| && pts[j].b < pts[i].b && EndsAt(pts, c, j)
      && Exacts(pts, d) == Exacts(pts, c) + if Exact(pts[i]) then 1 else 0
  {
  }

  predicate IsExactAt(pts: seq<Point>, c: seq<int>, k: int) {
    0 <= k < |c| && 0 <= c[k] < |pts| && pts[c[k]].a == pts[c[k]].b
  }

  ghost function ExactAt(pts: seq<Point>, c: seq<int>): set<int> { set k | 0 <= k < |c| && IsExactAt(pts, c, k) }

  /** It is the number of places in the run where A and B have the same position. */
  lemma {:induction false} ExactsCount(pts: seq<Point>, c: seq<int>)
    ensures Exacts(pts, c) == |ExactAt(pts, c)|
  {
    if c != [] {
      var n := |c| - 1;
      ExactsCount(pts, c[..n]);
      assert forall k :: 0 <= k < n ==> (IsExactAt(pts, c, k) <==> IsExactAt(pts, c[..n], k));
      assert ExactAt(pts, c) == ExactAt(pts, c[..n]) + if IsExactAt(pts, c, n) then {n} else {};
    } else {
      assert ExactAt(pts, c) == {};
    }
  }

  /** The best of the optimal chains ending at each position is optimal. */
  lemma BestIsOptimal(pts: seq<Point>, chains: seq<seq<int>>, best: int)
    requires |chains| == |pts| && 0 <= best < |pts|
    requires forall i :: 0 <= i < |pts| ==> OptimalEnd(pts, i, chains[i])
    requires forall i :: 0 <= i < |pts| ==>
      NoBetter(|chains[i]|, Exacts(pts, chains[i]), |chains[best]|, Exacts(pts, chains[best]))
    ensures Optimal(pts, chains[best])
  {
    assert OptimalEnd(pts, best, chains[best]);
    forall d | Chain(pts, d) ensures NoBetter(|d|, Exacts(pts, d), |chains[best]|, Exacts(pts, chains[best])) {
      if d != [] {
        var i := d[|d|-1];
        assert OptimalEnd(pts, i, chains[i]) && EndsAt(pts, d, i);
      }
    }
  }

  ghost predicate BestSoFar(length: seq<int>, exact: seq<int>, best: int)
    requires |length| == |exact|
  {
    if length == [] then best == -1
    else
      && 0 <= best < |length|
      && forall k :: 0 <= k < |length| ==> NoBetter(length[k], exact[k], length[best], exact[best])
  }

  /** The table: one row for each position, best overall remembered. */
  method Table(pts: seq<Point>) returns (prev: seq<int>, best: int, ghost chains: seq<seq<int>>)
    ensures |prev| == |pts| == |chains|
    ensures forall i :: 0 <= i < |pts| ==>
      -1 <= prev[i] < i && chains[i] == (if prev[i] < 0 then [] else chains[prev[i]]) + [i]
    ensures if pts == [] then best == -1 else 0 <= best < |pts| && Optimal(pts, chains[best])
  {
    hide OptimalEnd, EndsAt, Optimal, Chain, Exacts;
    var length: seq<int>, exact: seq<int> := [], [];
    prev, best, chains := [], -1, [];
    for i := 0 to |pts|
      invariant |chains| == i && Filled(pts, chains, length, exact, prev)
      invariant BestSoFar(length, exact, best)
    {
      var l, e, p, chain := Row(pts, i, length, exact, chains, prev);
      FilledGrows(pts, chains, length, exact, prev, chain, l, e, p);
      BestGrows(length, exact, best, l, e);
      if best < 0 || l > length[best] || (l == length[best] && e > exact[best]) {
        best := i;
      }
      length, exact, prev, chains := length + [l], exact + [e], prev + [p], chains + [chain];
    }
    FilledIsOptimal(pts, chains, length, exact, prev, best);
  }

  lemma FilledGrows(pts: seq<Point>, chains: seq<seq<int>>, length: seq<int>, exact: seq<int>, prev: seq<int>,
                    chain: seq<int>, l: int, e: int, p: int)
    requires Filled(pts, chains, length, exact, prev) && |chains| < |pts|
    requires OptimalEnd(pts, |chains|, chain) && l == |chain| && e == Exacts(pts, chain)
    requires -1 <= p < |chains| && chain == (if p < 0 then [] else chains[p]) + [|chains|]
    ensures Filled(pts, chains + [chain], length + [l], exact + [e], prev + [p])
  {
    hide OptimalEnd, Exacts;
  }

  lemma BestGrows(length: seq<int>, exact: seq<int>, best: int, l: int, e: int)
    requires |length| == |exact| && BestSoFar(length, exact, best)
    ensures best >= 0 ==> best < |length|
    ensures BestSoFar(length + [l], exact + [e],
              if best < 0 || l > length[best] || (l == length[best] && e > exact[best]) then |length| else best)
  {
  }

  lemma FilledIsOptimal(pts: seq<Point>, chains: seq<seq<int>>, length: seq<int>, exact: seq<int>, prev: seq<int>,
                         best: int)
    requires Filled(pts, chains, length, exact, prev) && |chains| == |pts| && BestSoFar(length, exact, best)
    ensures forall i :: 0 <= i < |pts| ==>
      -1 <= prev[i] < i && chains[i] == (if prev[i] < 0 then [] else chains[prev[i]]) + [i]
    ensures if pts == [] then best == -1 else 0 <= best < |pts| && Optimal(pts, chains[best])
  {
    hide OptimalEnd, Optimal;
    if pts != [] {
      BestIsOptimal(pts, chains, best);
    }
  }

  /** The inner loop for position i: its best link back among the rows before it. */
  method Row(pts: seq<Point>, i: nat, length: seq<int>, exact: seq<int>, ghost chains: seq<seq<int>>,
             ghost prev: seq<int>)
    returns (l: int, e: int, p: int, ghost chain: seq<int>)
    requires |length| == |exact| == |chains| == i < |pts| && Filled(pts, chains, length, exact, prev)
    ensures OptimalEnd(pts, i, chain) && l == |chain| && e == Exacts(pts, chain)
    ensures -1 <= p < i && chain == (if p < 0 then [] else chains[p]) + [i]
  {
    hide OptimalEnd, EndsAt, Chain, Filled, Exacts;
    var here := if Exact(pts[i]) then 1 else 0;
    l, e, p, chain := 1, here, -1, [i];
    Alone(pts, i);
    for j := 0 to i
      invariant EndsAt(pts, chain, i) && l == |chain| && e == Exacts(pts, chain)
      invariant -1 <= p < j && chain == (if p < 0 then [] else chains[p]) + [i]
      invariant NoBetter(1, here, l, e)
      invariant forall k :: 0 <= k < j && pts[k].b < pts[i].b ==> NoBetter(length[k] + 1, exact[k] + here, l, e)
    {
      if pts[j].b >= pts[i].b {
        continue;
      }
      var l', e' := length[j] + 1, exact[j] + here;
      FilledAt(pts, chains, length, exact, prev, j);
      if l' > l || (l' == l && e' > e) {
        Extend(pts, chains[j], j, i);
        l, e, p, chain := l', e', j, chains[j] + [i];
      }
    }
    EndIsOptimal(pts, chains, length, exact, prev, i, chain, here);
  }

  lemma FilledAt(pts: seq<Point>, chains: seq<seq<int>>, length: seq<int>, exact: seq<int>, prev: seq<int>, j: int)
    requires Filled(pts, chains, length, exact, prev) && 0 <= j < |chains|
    ensures EndsAt(pts, chains[j], j) && length[j] == |chains[j]| && exact[j] == Exacts(pts, chains[j])
  {
    assert OptimalEnd(pts, j, chains[j]);
  }

  /** After the inner loop, the chain built for i beats every chain ending there. */
  lemma EndIsOptimal(pts: seq<Point>, chains: seq<seq<int>>, length: seq<int>, exact: seq<int>, prev: seq<int>, i: int,
                     chain: seq<int>, here: int)
    requires 0 <= i < |pts| && Filled(pts, chains, length, exact, prev) && |chains| == i
    requires here == if Exact(pts[i]) then 1 else 0
    requires EndsAt(pts, chain, i) && NoBetter(1, here, |chain|, Exacts(pts, chain))
    requires forall k :: 0 <= k < i && pts[k].b < pts[i].b ==>
      NoBetter(length[k] + 1, exact[k] + here, |chain|, Exacts(pts, chain))
    ensures OptimalEnd(pts, i, chain)
  {
    forall d | EndsAt(pts, d, i) ensures NoBetter(|d|, Exacts(pts, d), |chain|, Exacts(pts, chain)) {
      LastStep(pts, d, i);
      if |d| == 1 {
        Alone(pts, i);
      } else {
        var j := d[|d|-2];
        assert OptimalEnd(pts, j, chains[j]) && EndsAt(pts, d[..|d|-1], j);
      }
    }
  }

  ghost predicate Holds(kept: set<int>, c: seq<int>) { forall i :: i in kept <==> i in c }

  /** Walks the links back from the best entry. */
  method Kept(pts: seq<Point>) returns (kept: set<int>, ghost chain: seq<int>)
    ensures Optimal(pts, chain) && Holds(kept, chain)
    ensures exists c :: Optimal(pts, c) && Holds(kept, c)
  {
    var prev, best;
    ghost var chains;
    prev, best, chains := Table(pts);
    hide Optimal, Chain;
    kept := {};
    chain := if best < 0 then [] else chains[best];
    var i := best;
    while i >= 0
      invariant -1 <= i < |pts|
      invariant forall k :: k in chain <==> k in kept || (i >= 0 && k in chains[i])
      decreases i + 1
    {
      assert chains[i] == (if prev[i] < 0 then [] else chains[prev[i]]) + [i];
      kept := kept + {i};
      i := prev[i];
    }
    if pts == [] {
      OnlyEmptyChain();
    }
  }

  lemma ChainInside(pts: seq<Point>, d: seq<int>)
    requires Chain(pts, d) && d != []
    ensures pts != []
  {
    assert 0 <= d[0] < |pts|;
  }

  lemma OnlyEmptyChain()
    ensures Optimal([], [])
  {
    forall d | Chain([], d) ensures NoBetter(|d|, Exacts([], d), 0, 0) {
      if d != [] {
        ChainInside([], d);
      }
    }
  }

  /** In A order, no two at one place. */
  ghost predicate Sorted(pts: seq<Point>) {
    forall i, j :: 0 <= i < j < |pts| ==> pts[i].a < pts[j].a
  }

  function Swap(p: Point): Point { Point(p.b, p.a) }

  ghost predicate Mirrors(pts: seq<Point>, pts': seq<Point>) {
    forall i :: 0 <= i < |pts| ==> Swap(pts[i]) in pts'
  }

  ghost function PlaceOf(pts: seq<Point>, p: Point): (i: int)
    requires p in pts
    ensures 0 <= i < |pts| && pts[i] == p
  {
    var i :| 0 <= i < |pts| && pts[i] == p; i
  }

  /** A chain read from B's side is a chain of the mirrored points. */
  lemma MirrorChain(pts: seq<Point>, pts': seq<Point>, c: seq<int>) returns (c': seq<int>)
    requires Sorted(pts) && Sorted(pts') && Mirrors(pts, pts') && Chain(pts, c)
    ensures Chain(pts', c') && |c'| == |c|
  {
    c' := seq(|c|, k requires 0 <= k < |c| => PlaceOf(pts', Swap(pts[c[k]])));
    forall k | 0 < k < |c'| ensures c'[k-1] < c'[k] && pts'[c'[k-1]].b < pts'[c'[k]].b {
      assert pts'[c'[k-1]] == Swap(pts[c[k-1]]) && pts'[c'[k]] == Swap(pts[c[k]]);
      assert pts[c[k-1]].a < pts[c[k]].a && pts[c[k-1]].b < pts[c[k]].b;
    }
  }

  /** The longest run is as long from either side. */
  lemma MirrorOptimal(pts: seq<Point>, pts': seq<Point>, c: seq<int>, c': seq<int>)
    requires Sorted(pts) && Sorted(pts') && Mirrors(pts, pts') && Mirrors(pts', pts)
    requires Optimal(pts, c) && Optimal(pts', c')
    ensures |c| == |c'|
  {
    var d := MirrorChain(pts, pts', c);
    var d' := MirrorChain(pts', pts, c');
  }

  /** When B rises all along, every position is kept. */
  lemma AllRising(pts: seq<Point>, c: seq<int>)
    requires Optimal(pts, c)
    requires forall i :: 0 < i < |pts| ==> pts[i-1].b < pts[i].b
    ensures |c| == |pts| && forall i :: 0 <= i < |pts| ==> c[i] == i
  {
    var all := seq(|pts|, i => i);
    assert Chain(pts, all);
    ChainPlaces(pts, c);
  }

  /** Positions in a chain rise, so the k-th is at least k and leaves room for those after it. */
  lemma {:induction false} ChainPlaces(pts: seq<Point>, c: seq<int>)
    requires Chain(pts, c)
    ensures |c| <= |pts|
    ensures forall k :: 0 <= k < |c| ==> k <= c[k] <= |pts| - |c| + k
  {
    forall k | 0 <= k < |c| ensures k <= c[k] <= |pts| - |c| + k {
      ChainLow(pts, c, k);
      ChainHigh(pts, c, k);
    }
    if c != [] {
      ChainLow(pts, c, |c| - 1);
    }
  }

  lemma {:induction false} ChainLow(pts: seq<Point>, c: seq<int>, k: int)
    requires Chain(pts, c) && 0 <= k < |c|
    ensures k <= c[k]
    decreases k
  {
    if k > 0 {
      ChainLow(pts, c, k - 1);
    }
  }

  lemma {:induction false} ChainHigh(pts: seq<Point>, c: seq<int>, k: int)
    requires Chain(pts, c) && 0 <= k < |c|
    ensures c[k] <= |pts| - |c| + k
    decreases |c| - k
  {
    if k < |c| - 1 {
      ChainHigh(pts, c, k + 1);
      assert c[k+1-1] < c[k+1];
    }
  }
}
