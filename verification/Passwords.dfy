/** Random passwords: how many the redraw loop can return, and where each of their characters comes from. */
module Passwords {
  // ----- words over an alphabet -----

  function Pow(b: int, e: nat): int { if e == 0 then 1 else b * Pow(b, e - 1) }

  ghost function Extend<T>(xs: set<seq<T>>, cs: set<T>): set<seq<T>> {
    set x, c | x in xs && c in cs :: x + [c]
  }

  lemma SnocInjective<T>(x: seq<T>, c: T, y: seq<T>, d: T)
    requires x + [c] == y + [d]
    ensures x == y && c == d
  {
    assert x == (x + [c])[..|x|] && y == (y + [d])[..|y|];
    assert (x + [c])[|x|] == c && (y + [d])[|y|] == d;
  }

  lemma ExtendHas<T>(xs: set<seq<T>>, cs: set<T>, w: seq<T>)
    ensures w in Extend(xs, cs) <==> w != [] && w[..|w|-1] in xs && w[|w|-1] in cs
  {
    if w != [] && w[..|w|-1] in xs && w[|w|-1] in cs {
      assert w == w[..|w|-1] + [w[|w|-1]];
    }
    if w in Extend(xs, cs) {
      var x, c :| x in xs && c in cs && x + [c] == w;
      assert w != [] && w == w[..|w|-1] + [w[|w|-1]];
      SnocInjective(x, c, w[..|w|-1], w[|w|-1]);
    }
  }

  lemma ExtendLess<T>(xs: set<seq<T>>, c: T, x: seq<T>, w: seq<T>)
    requires x in xs
    ensures w in Extend(xs, {c}) <==> w in Extend(xs - {x}, {c}) || w == x + [c]
    ensures x + [c] !in Extend(xs - {x}, {c})
  {
    var one := x + [c];
    ExtendHas(xs, {c}, w);
    ExtendHas(xs - {x}, {c}, w);
    ExtendHas(xs - {x}, {c}, one);
    hide Extend;
    assert one[..|one|-1] == x && one[|one|-1] == c;
    assert w != [] ==> w == w[..|w|-1] + [w[|w|-1]];
  }

  lemma {:induction false} ExtendOne<T>(xs: set<seq<T>>, c: T)
    ensures |Extend(xs, {c})| == |xs|
  {
    if xs != {} {
      var x :| x in xs;
      ExtendOne(xs - {x}, c);
      hide Extend;
      forall w
        ensures w in Extend(xs, {c}) <==> w in Extend(xs - {x}, {c}) || w == x + [c]
        ensures x + [c] !in Extend(xs - {x}, {c})
      {
        ExtendLess(xs, c, x, w);
      }
      OneMore(Extend(xs, {c}), Extend(xs - {x}, {c}), x + [c]);
    } else {
      assert Extend(xs, {c}) == {};
    }
  }

  lemma OneMore<T>(all: set<T>, rest: set<T>, one: T)
    requires one !in rest && forall w :: w in all <==> w in rest || w == one
    ensures |all| == |rest| + 1
  {
    assert all == rest + {one};
  }

  lemma {:induction false} ExtendCount<T>(xs: set<seq<T>>, cs: set<T>)
    ensures |Extend(xs, cs)| == |xs| * |cs|
    decreases |cs|
  {
    if cs != {} {
      var c :| c in cs;
      var all, one, rest := Extend(xs, cs), Extend(xs, {c}), Extend(xs, cs - {c});
      ExtendCount(xs, cs - {c});
      ExtendOne(xs, c);
      hide Extend;
      forall w ensures (w in all <==> w in rest || w in one) && !(w in rest && w in one) {
        ExtendHas(xs, cs, w);
        ExtendHas(xs, {c}, w);
        ExtendHas(xs, cs - {c}, w);
      }
      DisjointSum(all, rest, one);
      assert |xs| * |cs| == |xs| * |cs - {c}| + |xs|;
    } else {
      assert Extend(xs, cs) == {};
    }
  }

  lemma DisjointSum<T>(all: set<T>, a: set<T>, b: set<T>)
    requires forall w :: (w in all <==> w in a || w in b) && !(w in a && w in b)
    ensures |all| == |a| + |b|
  {
    assert all == a + b && a !! b;
  }

  ghost function Words(abc: set<char>, n: nat): set<string> {
    if n == 0 then {""} else Extend(Words(abc, n - 1), abc)
  }

  predicate Over(w: string, abc: set<char>) { forall i :: 0 <= i < |w| ==> w[i] in abc }

  lemma {:induction false} WordsAre(abc: set<char>, n: nat, w: string)
    ensures w in Words(abc, n) <==> |w| == n && Over(w, abc)
  {
    if n > 0 {
      ExtendHas(Words(abc, n - 1), abc, w);
      hide Extend;
      if w != "" {
        WordsAre(abc, n - 1, w[..|w|-1]);
      }
    }
  }

  lemma {:induction false} WordsCount(abc: set<char>, n: nat)
    ensures |Words(abc, n)| == Pow(|abc|, n)
  {
    if n > 0 {
      WordsCount(abc, n - 1);
      ExtendCount(Words(abc, n - 1), abc);
    }
  }

  // ----- words that lack no set -----

  ghost function Chars(s: string): set<char> { set c | c in s }

  predicate Distinct(s: string) { forall i, j :: 0 <= i < j < |s| ==> s[i] != s[j] }

  /** As strings.ContainsAny(w, s). */
  predicate Holds(w: string, s: string) { exists i :: 0 <= i < |w| && w[i] in s }

  predicate LacksNone(w: string, sets: seq<string>) {
    forall k :: 0 <= k < |sets| ==> Holds(w, sets[k])
  }

  ghost function Allowed(abc: set<char>, sets: seq<string>, n: nat): set<string> {
    set w | w in Words(abc, n) && LacksNone(w, sets)
  }

  ghost predicate SetsWithin(sets: seq<string>, abc: set<char>) {
    && (forall k :: 0 <= k < |sets| ==> Distinct(sets[k]) && Chars(sets[k]) <= abc)
    && (forall j, k :: 0 <= j < k < |sets| ==> Chars(sets[j]) !! Chars(sets[k]))
  }

  lemma {:induction false} DistinctCount(s: string)
    requires Distinct(s)
    ensures |Chars(s)| == |s|
  {
    if s != "" {
      var x, c := s[..|s|-1], s[|s|-1];
      DistinctCount(x);
      assert Chars(s) == Chars(x) + {c};
    }
  }

  /** The recursion behind inclusion-exclusion: words lacking none of the sets before the last, less those of them that
      avoid the last. */
  function Count(sets: seq<string>, left: int, n: nat): int {
    if sets == [] then Pow(left, n)
    else
      var k := |sets| - 1;
      Count(sets[..k], left, n) - Count(sets[..k], left - |sets[k]|, n)
  }

  lemma AvoidOrHold(abc: set<char>, sets: seq<string>, n: nat)
    requires sets != []
    ensures var k := |sets| - 1; var rest := Allowed(abc - Chars(sets[k]), sets[..k], n);
      rest <= Allowed(abc, sets[..k], n) && Allowed(abc, sets, n) == Allowed(abc, sets[..k], n) - rest
  {
    var k := |sets| - 1;
    var last := sets[k];
    forall w
      ensures w in Allowed(abc - Chars(last), sets[..k], n) <==> w in Allowed(abc, sets[..k], n) && !Holds(w, last)
      ensures w in Allowed(abc, sets, n) <==> w in Allowed(abc, sets[..k], n) && Holds(w, last)
    {
      WordsAre(abc, n, w);
      WordsAre(abc - Chars(last), n, w);
      assert Over(w, abc - Chars(last)) <==> Over(w, abc) && !Holds(w, last);
      LacksLast(w, sets);
    }
  }

  lemma LacksLast(w: string, sets: seq<string>)
    requires sets != []
    ensures LacksNone(w, sets) <==> LacksNone(w, sets[..|sets|-1]) && Holds(w, sets[|sets|-1])
  {
    hide Holds;
    var k := |sets| - 1;
    if LacksNone(w, sets[..k]) && Holds(w, sets[k]) {
      forall j | 0 <= j < |sets| ensures Holds(w, sets[j]) {
        assert j < k ==> sets[j] == sets[..k][j];
      }
    }
  }

  lemma WithinInit(sets: seq<string>, abc: set<char>)
    requires sets != [] && SetsWithin(sets, abc)
    ensures var k := |sets| - 1;
      && Distinct(sets[k]) && Chars(sets[k]) <= abc
      && SetsWithin(sets[..k], abc) && SetsWithin(sets[..k], abc - Chars(sets[k]))
  {
  }

  lemma NoSetsAllow(abc: set<char>, n: nat)
    ensures Allowed(abc, [], n) == Words(abc, n)
  {
  }

  lemma SizeLess<T>(x: set<T>, y: set<T>)
    requires y <= x
    ensures |x - y| == |x| - |y|
  {
  }

  lemma CountNext(sets: seq<string>, left: int, n: nat)
    ensures sets == [] ==> Count(sets, left, n) == Pow(left, n)
    ensures sets != [] ==>
      var k := |sets| - 1; Count(sets, left, n) == Count(sets[..k], left, n) - Count(sets[..k], left - |sets[k]|, n)
  {
  }

  lemma {:induction false} CountIsAllowed(abc: set<char>, sets: seq<string>, n: nat)
    requires SetsWithin(sets, abc)
    ensures |Allowed(abc, sets, n)| == Count(sets, |abc|, n)
    decreases |sets|
  {
    hide *;
    CountNext(sets, |abc|, n);
    if sets == [] {
      WordsCount(abc, n);
      NoSetsAllow(abc, n);
    } else {
      var k := |sets| - 1;
      WithinInit(sets, abc);
      DistinctCount(sets[k]);
      SizeLess(abc, Chars(sets[k]));
      CountIsAllowed(abc, sets[..k], n);
      CountIsAllowed(abc - Chars(sets[k]), sets[..k], n);
      AvoidOrHold(abc, sets, n);
      SizeLess(Allowed(abc, sets[..k], n), Allowed(abc - Chars(sets[k]), sets[..k], n));
    }
  }

  // ----- the signed sum over masks -----

  function Pow2(k: nat): nat { if k == 0 then 1 else 2 * Pow2(k - 1) }

  /** mask & (1 << i) != 0. */
  predicate Bit(mask: nat, i: nat) { if i == 0 then mask % 2 == 1 else Bit(mask / 2, i - 1) }

  function OnesCount(mask: nat): nat { if mask == 0 then 0 else mask % 2 + OnesCount(mask / 2) }

  /** The characters left when the masked sets are taken away. */
  function Left(sets: seq<string>, size: int, mask: nat): int {
    if sets == [] then size
    else
      var k := |sets| - 1;
      Left(sets[..k], size, mask) - (if Bit(mask, k) then |sets[k]| else 0)
  }

  function Term(sets: seq<string>, size: int, length: nat, mask: nat): int {
    Pow(-1, OnesCount(mask)) * Pow(Left(sets, size, mask), length)
  }

  function MaskSum(sets: seq<string>, size: int, length: nat, upto: nat): int {
    if upto == 0 then 0 else MaskSum(sets, size, length, upto - 1) + Term(sets, size, length, upto - 1)
  }

  lemma {:induction false} HighBit(m: nat, j: nat)
    requires m < Pow2(j)
    ensures OnesCount(m + Pow2(j)) == OnesCount(m) + 1
    ensures Bit(m + Pow2(j), j) && !Bit(m, j)
  {
    if j > 0 {
      HighBit(m / 2, j - 1);
      assert (m + Pow2(j)) / 2 == m / 2 + Pow2(j - 1) && (m + Pow2(j)) % 2 == m % 2;
    }
  }

  lemma {:induction false} LowBit(m: nat, j: nat, i: nat)
    requires i < j
    ensures Bit(m + Pow2(j), i) == Bit(m, i)
  {
    assert (m + Pow2(j)) / 2 == m / 2 + Pow2(j - 1) && (m + Pow2(j)) % 2 == m % 2;
    if i > 0 {
      LowBit(m / 2, j - 1, i - 1);
    }
  }

  lemma {:induction false} LeftShift(sets: seq<string>, size: int, less: nat, m: nat, j: nat)
    requires |sets| <= j
    ensures Left(sets, size, m + Pow2(j)) - less == Left(sets, size - less, m)
  {
    if sets != [] {
      LeftShift(sets[..|sets|-1], size, less, m, j);
      LowBit(m, j, |sets| - 1);
    }
  }

  lemma MaskedTerms(sets: seq<string>, size: int, length: nat, m: nat)
    requires sets != [] && m < Pow2(|sets| - 1)
    ensures var k := |sets| - 1;
      && Term(sets, size, length, m) == Term(sets[..k], size, length, m)
      && Term(sets, size, length, m + Pow2(k)) == -Term(sets[..k], size - |sets[k]|, length, m)
  {
    var k := |sets| - 1;
    HighBit(m, k);
    LeftShift(sets[..k], size, |sets[k]|, m, k);
    assert Left(sets, size, m) == Left(sets[..k], size, m);
    assert Left(sets, size, m + Pow2(k)) == Left(sets[..k], size - |sets[k]|, m);
    SignFlips(OnesCount(m), Pow(Left(sets[..k], size - |sets[k]|, m), length));
  }

  lemma SignFlips(ones: nat, x: int)
    ensures Pow(-1, ones + 1) * x == -(Pow(-1, ones) * x)
  {
    assert Pow(-1, ones + 1) == -Pow(-1, ones);
  }

  lemma {:induction false} HalfSums(sets: seq<string>, size: int, length: nat, upto: nat)
    requires sets != [] && upto <= Pow2(|sets| - 1)
    ensures var k := |sets| - 1;
      && MaskSum(sets, size, length, upto) == MaskSum(sets[..k], size, length, upto)
      && MaskSum(sets, size, length, Pow2(k) + upto)
          == MaskSum(sets, size, length, Pow2(k)) - MaskSum(sets[..k], size - |sets[k]|, length, upto)
  {
    hide Term;
    if upto > 0 {
      HalfSums(sets, size, length, upto - 1);
      MaskedTerms(sets, size, length, upto - 1);
    }
  }

  lemma {:induction false} MaskSumIsCount(sets: seq<string>, size: int, length: nat)
    ensures MaskSum(sets, size, length, Pow2(|sets|)) == Count(sets, size, length)
    decreases |sets|
  {
    if sets == [] {
      assert MaskSum(sets, size, length, 1) == MaskSum(sets, size, length, 0) + Term(sets, size, length, 0);
      assert Term(sets, size, length, 0) == Pow(size, length);
    } else {
      var k := |sets| - 1;
      HalfSums(sets, size, length, Pow2(k));
      MaskSumIsCount(sets[..k], size, length);
      MaskSumIsCount(sets[..k], size - |sets[k]|, length);
    }
  }

  /** passwordEntropy's loops in exact integers: the share of passwords lacking no set, times size to the length. */
  method SignedCount(sets: seq<string>, size: int, length: nat) returns (total: int)
    ensures total == MaskSum(sets, size, length, Pow2(|sets|))
  {
    total := 0;
    var mask := 0;
    while mask < Pow2(|sets|)
      invariant 0 <= mask <= Pow2(|sets|)
      invariant total == MaskSum(sets, size, length, mask)
    {
      var left := size;
      for i := 0 to |sets|
        invariant left == Left(sets[..i], size, mask)
      {
        assert sets[..i+1][..i] == sets[..i];
        if Bit(mask, i) {
          left := left - |sets[i]|;
        }
      }
      assert sets[..|sets|] == sets;
      total := total + Pow(-1, OnesCount(mask)) * Pow(left, length);
      mask := mask + 1;
    }
  }

  /** The signed sum counts exactly the words of that length, over the alphabet, that hold a character of every set. */
  lemma InclusionExclusion(abc: set<char>, sets: seq<string>, length: nat)
    requires SetsWithin(sets, abc)
    ensures MaskSum(sets, |abc|, length, Pow2(|sets|)) == |Allowed(abc, sets, length)|
  {
    MaskSumIsCount(sets, |abc|, length);
    CountIsAllowed(abc, sets, length);
  }

  // ----- when the count is positive -----

  function Without(w: string, s: string): string {
    if w == "" then ""
    else Without(w[..|w|-1], s) + (if w[|w|-1] in s then "" else [w[|w|-1]])
  }

  lemma {:induction false} WithoutKeeps(w: string, s: string, t: string)
    ensures |Without(w, s)| <= |w|
    ensures Holds(w, s) ==> |Without(w, s)| < |w|
    ensures Chars(s) !! Chars(t) && Holds(w, t) ==> Holds(Without(w, s), t)
  {
    if w != "" {
      var k := |w| - 1;
      WithoutKeeps(w[..k], s, t);
      assert Holds(w, s) <==> Holds(w[..k], s) || w[k] in s;
      assert Holds(w, t) <==> Holds(w[..k], t) || w[k] in t;
      var rest := Without(w[..k], s);
      if Chars(s) !! Chars(t) && Holds(w, t) {
        if Holds(w[..k], t) {
          var i :| 0 <= i < |rest| && rest[i] in t;
          assert Without(w, s)[i] in t;
        } else {
          assert w[k] in Chars(t) && w[k] !in s;
          assert Without(w, s)[|rest|] in t;
        }
      }
    }
  }

  /** A word needs as many characters as it has disjoint sets to hold. */
  lemma {:induction false} LongEnough(w: string, sets: seq<string>, abc: set<char>)
    requires SetsWithin(sets, abc) && LacksNone(w, sets)
    ensures |sets| <= |w|
    decreases |sets|
  {
    if sets != [] {
      var k := |sets| - 1;
      WithoutKeeps(w, sets[k], "");
      assert Holds(w, sets[k]);
      forall j | 0 <= j < k ensures Holds(Without(w, sets[k]), sets[..k][j]) {
        assert Holds(w, sets[j]);
        WithoutKeeps(w, sets[k], sets[j]);
      }
      LongEnough(Without(w, sets[k]), sets[..k], abc);
    }
  }

  lemma {:induction false} SomeWord(sets: seq<string>, abc: set<char>, n: nat) returns (w: string)
    requires SetsWithin(sets, abc) && (forall k :: 0 <= k < |sets| ==> sets[k] != "") && |sets| <= n
    requires sets == [] ==> n == 0
    ensures |w| == n && Over(w, abc) && LacksNone(w, sets)
  {
    if sets == [] {
      w := "";
    } else if |sets| == n {
      w := FullWord(sets, abc);
    } else {
      var rest := SomeWord(sets, abc, n - 1);
      assert sets[0][0] in Chars(sets[0]);
      w := rest + [sets[0][0]];
      LacksNoneLonger(rest, sets[0][0], sets);
    }
  }

  lemma {:induction false} FullWord(sets: seq<string>, abc: set<char>) returns (w: string)
    requires SetsWithin(sets, abc) && (forall k :: 0 <= k < |sets| ==> sets[k] != "")
    ensures |w| == |sets| && Over(w, abc) && LacksNone(w, sets)
  {
    if sets == [] {
      w := "";
    } else {
      var k := |sets| - 1;
      var c := sets[k][0];
      assert c in Chars(sets[k]);
      var rest := FullWord(sets[..k], abc);
      w := rest + [c];
      LacksNoneLonger(rest, c, sets[..k]);
      assert Holds(w, sets[k]) by { assert w[|rest|] in sets[k]; }
      LacksLast(w, sets);
    }
  }

  lemma LacksNoneLonger(w: string, c: char, sets: seq<string>)
    requires LacksNone(w, sets)
    ensures LacksNone(w + [c], sets)
  {
    forall k | 0 <= k < |sets| ensures Holds(w + [c], sets[k]) {
      assert Holds(w, sets[k]);
      var i :| 0 <= i < |w| && w[i] in sets[k];
      assert (w + [c])[i] in sets[k];
    }
  }

  /** The alphabet as the sets' characters joined. */
  function Joined(sets: seq<string>): string {
    if sets == [] then "" else Joined(sets[..|sets|-1]) + sets[|sets|-1]
  }

  /** No set may be empty and the length must reach the number of sets; then, and only then, is there a password to
      draw. */
  lemma PasswordExistsIff(sets: seq<string>, length: nat)
    requires SetsWithin(sets, Chars(Joined(sets)))
    ensures MaskSum(sets, |Chars(Joined(sets))|, length, Pow2(|sets|)) > 0
      <==> (forall k :: 0 <= k < |sets| ==> sets[k] != "") && |sets| <= length && (sets == [] ==> length == 0)
  {
    var abc := Chars(Joined(sets));
    InclusionExclusion(abc, sets, length);
    hide MaskSum;
    if |Allowed(abc, sets, length)| > 0 {
      var w :| w in Allowed(abc, sets, length);
      WordsAre(abc, length, w);
      LongEnough(w, sets, abc);
      forall k | 0 <= k < |sets| ensures sets[k] != "" {
        assert Holds(w, sets[k]);
      }
    }
    if (forall k :: 0 <= k < |sets| ==> sets[k] != "") && |sets| <= length && (sets == [] ==> length == 0) {
      var w := SomeWord(sets, abc, length);
      WordsAre(abc, length, w);
      assert w in Allowed(abc, sets, length);
    }
  }

  // ----- the sets and their alphabet -----

  const LOWER := "abcdefghijklmnopqrstuvwxyz"
  const UPPER := "ABCDEFGHIJKLMNOPQRSTUVWXYZ"
  const DIGITS := "0123456789"
  const SYMBOLS := "!\"#$%&'()*+,-./:;<=>?@[\\]^_`{|}~"
  const CHAR_SETS := [LOWER, UPPER, DIGITS, SYMBOLS]

  const AMBIGUOUS := "0O1lI|`"

  /** As strings.ReplaceAll(s, string(c), ""). */
  function Removing(s: string, c: char): string {
    if s == "" then "" else Removing(s[..|s|-1], c) + (if s[|s|-1] == c then "" else [s[|s|-1]])
  }

  function Trimmed(s: string, bad: string): string {
    if bad == "" then s else Removing(Trimmed(s, bad[..|bad|-1]), bad[|bad|-1])
  }

  lemma {:induction false} RemovingIs(s: string, c: char)
    ensures forall d :: d in Removing(s, c) <==> d in s && d != c
    ensures Distinct(s) ==> Distinct(Removing(s, c))
  {
    if s != "" {
      RemovingIs(s[..|s|-1], c);
      assert s == s[..|s|-1] + [s[|s|-1]];
      if Distinct(s) {
        assert s[|s|-1] !in s[..|s|-1];
      }
    }
  }

  lemma {:induction false} TrimmedIs(s: string, bad: string)
    ensures forall d :: d in Trimmed(s, bad) <==> d in s && d !in bad
    ensures Distinct(s) ==> Distinct(Trimmed(s, bad))
  {
    if bad != "" {
      hide Distinct;
      TrimmedIs(s, bad[..|bad|-1]);
      RemovingIs(Trimmed(s, bad[..|bad|-1]), bad[|bad|-1]);
      assert bad == bad[..|bad|-1] + [bad[|bad|-1]];
    }
  }

  /** The loop that trims each chosen set in place and joins the alphabet. */
  method TrimSets(sets: array<string>, excludeAmbiguous: bool) returns (abc: string)
    modifies sets
    ensures forall i :: 0 <= i < sets.Length ==>
      sets[i] == if excludeAmbiguous then Trimmed(old(sets[i]), AMBIGUOUS) else old(sets[i])
    ensures abc == Joined(sets[..])
  {
    abc := "";
    for i := 0 to sets.Length
      invariant forall k :: 0 <= k < i ==>
        sets[k] == if excludeAmbiguous then Trimmed(old(sets[k]), AMBIGUOUS) else old(sets[k])
      invariant forall k :: i <= k < sets.Length ==> sets[k] == old(sets[k])
      invariant abc == Joined(sets[..i])
    {
      ghost var before := sets[..i];
      if excludeAmbiguous {
        var chars := sets[i];
        for j := 0 to |AMBIGUOUS|
          invariant chars == Trimmed(old(sets[i]), AMBIGUOUS[..j])
        {
          assert AMBIGUOUS[..j+1][..j] == AMBIGUOUS[..j];
          chars := Removing(chars, AMBIGUOUS[j]);
        }
        assert AMBIGUOUS[..|AMBIGUOUS|] == AMBIGUOUS;
        sets[i] := chars;
      }
      assert sets[..i+1][..i] == before;
      abc := abc + sets[i];
    }
    assert sets[..sets.Length] == sets[..];
  }

  ghost predicate TrimOf(sets: seq<string>, from: seq<string>, bad: string) {
    |sets| == |from| && forall k :: 0 <= k < |sets| ==> sets[k] == Trimmed(from[k], bad)
  }

  lemma {:induction false} JoinedHas(sets: seq<string>, c: char)
    ensures c in Joined(sets) <==> exists k :: 0 <= k < |sets| && c in sets[k]
  {
    if sets != [] {
      var k := |sets| - 1;
      JoinedHas(sets[..k], c);
      if j :| 0 <= j < |sets| && c in sets[j] {
        assert j < k ==> sets[..k][j] == sets[j];
      }
    }
  }

  lemma DistinctAppend(a: string, b: string)
    requires Distinct(a) && Distinct(b) && forall c :: c in b ==> c !in a
    ensures Distinct(a + b)
  {
    var s := a + b;
    forall i, j | 0 <= i < j < |s| ensures s[i] != s[j] {
      if i < |a| <= j {
        assert s[j] in b;
      }
    }
  }

  /** Disjoint sets of distinct characters join to an alphabet as long as it has characters. */
  lemma {:induction false} JoinedIsDistinct(sets: seq<string>, abc: set<char>)
    requires SetsWithin(sets, abc)
    ensures Distinct(Joined(sets))
    ensures SetsWithin(sets, Chars(Joined(sets)))
  {
    forall k | 0 <= k < |sets| ensures Chars(sets[k]) <= Chars(Joined(sets)) {
      forall c | c in sets[k] ensures c in Joined(sets) { JoinedHas(sets, c); }
    }
    if sets != [] {
      var k := |sets| - 1;
      JoinedIsDistinct(sets[..k], abc);
      forall c | c in sets[k] ensures c !in Joined(sets[..k]) {
        JoinedHas(sets[..k], c);
        assert c in Chars(sets[k]);
        forall j | 0 <= j < k ensures c !in sets[..k][j] {
          assert Chars(sets[j]) !! Chars(sets[k]);
          assert c !in Chars(sets[j]);
        }
      }
      DistinctAppend(Joined(sets[..k]), sets[k]);
    }
  }

  /** The chosen sets, in the table's order. */
  function Chosen(sets: seq<string>, keep: string -> bool): seq<string> {
    if sets == [] then []
    else Chosen(sets[..|sets|-1], keep) + (if keep(sets[|sets|-1]) then [sets[|sets|-1]] else [])
  }

  lemma {:induction false} ChosenWithin(sets: seq<string>, keep: string -> bool, abc: set<char>)
    requires SetsWithin(sets, abc)
    ensures SetsWithin(Chosen(sets, keep), abc)
    ensures forall s :: s in Chosen(sets, keep) ==> s in sets
  {
    hide Distinct;
    if sets != [] {
      var k := |sets| - 1;
      ChosenWithin(sets[..k], keep, abc);
      forall s | s in Chosen(sets[..k], keep) ensures Chars(s) !! Chars(sets[k]) {
        var j :| 0 <= j < k && sets[..k][j] == s;
        assert sets[j] == s;
      }
    }
  }

  function Kind(c: char): nat {
    if 'a' <= c <= 'z' then 0 else if 'A' <= c <= 'Z' then 1 else if '0' <= c <= '9' then 2 else 3
  }

  predicate KindOf(s: string, k: nat) {
    forall i :: 0 <= i < |s| ==> Kind(s[i]) == k
  }

  predicate Ascending(s: string) { forall i :: 0 < i < |s| ==> s[i-1] < s[i] }

  lemma {:induction false} AscendingIsDistinct(s: string)
    requires Ascending(s)
    ensures Distinct(s)
    ensures forall i, j :: 0 <= i < j < |s| ==> s[i] < s[j]
  {
    if s != "" {
      var t := s[..|s|-1];
      AscendingIsDistinct(t);
      assert |s| >= 2 ==> s[|s|-2] < s[|s|-1];
      assert |s| >= 2 ==> forall i :: 0 <= i < |t| - 1 ==> t[i] < t[|t|-1];
    }
  }

  lemma LowerAscends() ensures Ascending(LOWER) { }

  lemma UpperAscends() ensures Ascending(UPPER) { }

  lemma DigitsAscend() ensures Ascending(DIGITS) { }

  lemma SymbolsAscend() ensures Ascending(SYMBOLS) { }

  lemma LowerAre() ensures KindOf(LOWER, 0) { }

  lemma UpperAre() ensures KindOf(UPPER, 1) { }

  lemma DigitsAre() ensures KindOf(DIGITS, 2) { }

  lemma SymbolsAre() ensures KindOf(SYMBOLS, 3) { }

  lemma CharSetIs(k: nat)
    requires k < |CHAR_SETS|
    ensures Distinct(CHAR_SETS[k]) && KindOf(CHAR_SETS[k], k)
  {
    assert CHAR_SETS == [LOWER, UPPER, DIGITS, SYMBOLS];
    hide *;
    LowerAscends();
    UpperAscends();
    DigitsAscend();
    SymbolsAscend();
    LowerAre();
    UpperAre();
    DigitsAre();
    SymbolsAre();
    AscendingIsDistinct(CHAR_SETS[k]);
  }

  lemma KindsDiffer(s: string, t: string, j: nat, k: nat)
    requires KindOf(s, j) && KindOf(t, k) && j != k
    ensures Chars(s) !! Chars(t)
  {
  }

  /** The four sets share no character and repeat none, however few of them are chosen. */
  lemma CharSetsAreDisjoint(keep: string -> bool)
    ensures var sets := Chosen(CHAR_SETS, keep); SetsWithin(sets, Chars(Joined(sets)))
  {
    assert |CHAR_SETS| == 4;
    hide LOWER, UPPER, DIGITS, SYMBOLS, CHAR_SETS, KindOf, Distinct;
    forall k | 0 <= k < |CHAR_SETS| ensures Distinct(CHAR_SETS[k]) {
      CharSetIs(k);
    }
    forall j, k | 0 <= j < k < |CHAR_SETS| ensures Chars(CHAR_SETS[j]) !! Chars(CHAR_SETS[k]) {
      CharSetIs(j);
      CharSetIs(k);
      KindsDiffer(CHAR_SETS[j], CHAR_SETS[k], j, k);
    }
    var all := Chars(Joined(CHAR_SETS));
    forall k | 0 <= k < |CHAR_SETS| ensures Chars(CHAR_SETS[k]) <= all {
      forall c | c in CHAR_SETS[k] ensures c in all { JoinedHas(CHAR_SETS, c); }
    }
    hide *;
    ChosenWithin(CHAR_SETS, keep, all);
    JoinedIsDistinct(Chosen(CHAR_SETS, keep), all);
  }

  /** Taking any characters out of every set leaves disjoint sets of distinct characters within their joined alphabet,
      so the sum computed from the alphabet's length is the number of passwords there are to draw. */
  lemma EntropyCountsPasswords(from: seq<string>, bad: string, sets: seq<string>, length: nat)
    requires SetsWithin(from, Chars(Joined(from))) && TrimOf(sets, from, bad)
    ensures SetsWithin(sets, Chars(Joined(sets))) && Distinct(Joined(sets))
    ensures MaskSum(sets, |Joined(sets)|, length, Pow2(|sets|)) == |Allowed(Chars(Joined(sets)), sets, length)|
  {
    forall k | 0 <= k < |sets| ensures Distinct(sets[k]) && Chars(sets[k]) <= Chars(Joined(sets)) {
      TrimmedIs(from[k], bad);
      forall c | c in sets[k] ensures c in Joined(sets) { JoinedHas(sets, c); }
    }
    forall j, k | 0 <= j < k < |sets| ensures Chars(sets[j]) !! Chars(sets[k]) {
      TrimmedIs(from[j], bad);
      TrimmedIs(from[k], bad);
      assert Chars(from[j]) !! Chars(from[k]);
      assert Chars(sets[j]) <= Chars(from[j]) && Chars(sets[k]) <= Chars(from[k]);
    }
    JoinedIsDistinct(sets, Chars(Joined(sets)));
    DistinctCount(Joined(sets));
    InclusionExclusion(Chars(Joined(sets)), sets, length);
  }
}
