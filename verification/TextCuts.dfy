/** Cutting text at a byte, as strings.Cut, strings.Split and strings.Join do. Characters are bytes. */
module TextCuts {
  /** Where c first is, or the end. */
  function CutAt(s: string, c: char): (j: nat)
    ensures j <= |s| && c !in s[..j] && (j < |s| ==> s[j] == c)
  {
    if s == "" || s[0] == c then 0 else 1 + CutAt(s[1..], c)
  }

  lemma CutIs(s: string, c: char, j: nat)
    requires j < |s| && s[j] == c && c !in s[..j]
    ensures CutAt(s, c) == j
  {
    var k := CutAt(s, c);
    assert forall i :: 0 <= i < j ==> s[..j][i] == s[i] && s[i] != c;
    assert forall i :: 0 <= i < k ==> s[..k][i] == s[i] && s[i] != c;
  }

  lemma CutNone(s: string, c: char)
    ensures CutAt(s, c) == |s| <==> c !in s
  {
    assert s[..|s|] == s;
  }

  /** Cutting a + c + b, with no c in a, gives a and b back. */
  lemma CutJoined(a: string, c: char, b: string)
    requires c !in a
    ensures CutAt(a + [c] + b, c) == |a|
    ensures (a + [c] + b)[..|a|] == a && (a + [c] + b)[|a|+1..] == b
  {
    var s := a + [c] + b;
    assert s[..|a|] == a && s[|a|] == c;
    CutIs(s, c, |a|);
  }

  lemma CutApart(s: string, c: char)
    ensures CutAt(s, c) < |s| ==> s == s[..CutAt(s, c)] + [c] + s[CutAt(s, c)+1..]
  {
  }

  /** strings.Split(s, c); at least one part. */
  function Split(s: string, c: char): (parts: seq<string>)
    ensures |parts| > 0
    ensures forall p :: p in parts ==> c !in p
    decreases |s|
  {
    var j := CutAt(s, c);
    if j == |s| then [s[..j]] else [s[..j]] + Split(s[j+1..], c)
  }

  /** strings.Join(parts, c). */
  function Join(parts: seq<string>, c: char): string {
    if parts == [] then "" else if |parts| == 1 then parts[0] else parts[0] + [c] + Join(parts[1..], c)
  }

  lemma {:induction false} JoinSplit(s: string, c: char)
    ensures Join(Split(s, c), c) == s
    decreases |s|
  {
    var j := CutAt(s, c);
    if j == |s| {
      assert s[..j] == s;
    } else {
      var rest := Split(s[j+1..], c);
      JoinSplit(s[j+1..], c);
      CutApart(s, c);
      assert ([s[..j]] + rest)[1..] == rest;
    }
  }

  lemma SplitFirst(part: string, c: char, rest: string)
    requires c !in part
    ensures Split(part + [c] + rest, c) == [part] + Split(rest, c)
  {
    CutJoined(part, c, rest);
  }

  lemma {:induction false} SplitJoin(parts: seq<string>, c: char)
    requires parts != [] && forall p :: p in parts ==> c !in p
    ensures Split(Join(parts, c), c) == parts
    decreases |parts|
  {
    if |parts| == 1 {
      CutNone(parts[0], c);
      assert parts[0][..|parts[0]|] == parts[0];
    } else {
      var rest := Join(parts[1..], c);
      assert Join(parts, c) == parts[0] + [c] + rest;
      assert parts == [parts[0]] + parts[1..];
      hide *;
      SplitJoin(parts[1..], c);
      SplitFirst(parts[0], c, rest);
    }
  }

  lemma {:induction false} JoinLacks(parts: seq<string>, c: char, d: char)
    requires c != d && forall p :: p in parts ==> d !in p
    ensures d !in Join(parts, c)
  {
    if |parts| > 1 {
      JoinLacks(parts[1..], c, d);
    }
  }

  lemma {:induction false} SplitLacks(s: string, c: char, d: char)
    requires d !in s
    ensures forall p :: p in Split(s, c) ==> d !in p
    decreases |s|
  {
    var j := CutAt(s, c);
    if j < |s| {
      SplitLacks(s[j+1..], c, d);
    }
  }
}
