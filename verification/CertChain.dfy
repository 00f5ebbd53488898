/** The order of a pasted certificate chain: which certificate issued which, and the one way to line them up. */
module CertChain {
  /** A certificate is its DER bytes; what they parse to comes from X509. */
  datatype Cert = Cert(raw: string)

  /** What a full check of a child against its issuer says. */
  datatype Check = Accepted | InsecureAlgorithm | MayNotIssue | OtherwiseRefused

  /** Name bytes and signature checks, left open. uncheckable covers algorithms too broken or unknown to verify; check
      also asks whether the parent may issue; weak says the child's signature uses a hash known to be weak. */
  datatype X509 = X509(
    issuerName: Cert -> string, subjectName: Cert -> string,
    verifies: (Cert, Cert) -> bool, uncheckable: (Cert, Cert) -> bool,
    check: (Cert, Cert) -> Check, weak: Cert -> bool)

  predicate CertIssued(x: X509, child: Cert, parent: Cert) {
    x.issuerName(child) == x.subjectName(parent) && (x.verifies(child, parent) || x.uncheckable(child, parent))
  }

  datatype Signature = NotChecked | Valid | Unsupported | Insecure | Invalid | NotCA

  datatype Link = Link(child: nat, issuer: nat, nameMatch: bool, issued: bool, signature: Signature)

  function SignatureOf(x: X509, c: Cert, p: Cert): Signature {
    if x.check(c, p) == Accepted then Valid
    else if x.uncheckable(c, p) && !x.weak(c) then Unsupported
    else if x.uncheckable(c, p) then Insecure
    else if !x.verifies(c, p) then Invalid
    else
      match x.check(c, p)
      case InsecureAlgorithm => Insecure
      case MayNotIssue => NotCA
      case _ => Invalid
  }

  function CheckLink(x: X509, certs: seq<Cert>, child: nat, parent: nat): (l: Link)
    requires child < |certs| && parent < |certs|
    ensures var c, p := certs[child], certs[parent];
      var chains, ok, open := x.issuerName(c) == x.subjectName(p), x.verifies(c, p), x.uncheckable(c, p);
      && l.child == child + 1 && l.issuer == parent + 1 && (l.nameMatch <==> chains)
      && (l.issued <==> chains && (ok || open)) && (Fails(l) <==> l.issued && x.check(c, p) != Accepted)
      && (l.signature == NotChecked <==> !chains)
      && (l.signature == Valid <==> chains && x.check(c, p) == Accepted)
      && (l.signature == Unsupported <==> chains && x.check(c, p) != Accepted && open && !x.weak(c))
      && (l.signature == Insecure <==>
            chains && ((x.check(c, p) != Accepted && open && x.weak(c))
                       || (x.check(c, p) == InsecureAlgorithm && ok && !open)))
      && (l.signature == NotCA <==> chains && x.check(c, p) == MayNotIssue && ok && !open)
      && (l.signature == Invalid <==>
            chains && !open && x.check(c, p) != Accepted && (!ok || x.check(c, p) == OtherwiseRefused))
  {
    var c, p := certs[child], certs[parent];
    if x.issuerName(c) != x.subjectName(p) then Link(child + 1, parent + 1, false, false, NotChecked)
    else Link(child + 1, parent + 1, true, x.verifies(c, p) || x.uncheckable(c, p), SignatureOf(x, c, p))
  }

  predicate Fails(l: Link) { l.issued && l.signature != Valid }

  /** The one issued that one, but verifiers refuse the link. */
  predicate Refused(x: X509, c: Cert, p: Cert) {
    CertIssued(x, c, p) && x.check(c, p) != Accepted
  }

  datatype Verdict = InOrder | OutOfOrder | SeveralLeaves | Loop | Partial

  /** Certificate copy repeats certificate of. */
  datatype Note = Note(copy: nat, of: nat)

  /** Positions count from 0; last is the one the chain ends at, -1 for none, and selfSigned whether that one issued
      itself. */
  datatype Chain = Chain(
    links: seq<Link>, failing: bool, orderOK: bool, copies: seq<Note>, suggested: seq<nat>, verdict: Verdict, last: int,
    selfSigned: bool)

  // ----- copies, issuers, leaves and the walk, on values -----

  predicate IsCopy(certs: seq<Cert>, i: nat)
    requires i < |certs|
  {
    exists j :: 0 <= j < i && certs[j] == certs[i]
  }

  function Copies(certs: seq<Cert>): seq<bool> { seq(|certs|, i requires 0 <= i < |certs| => IsCopy(certs, i)) }

  /** certs[j] issued certs[i], both first occurrences and different ones. */
  predicate Issues(x: X509, certs: seq<Cert>, i: nat, j: nat)
    requires i < |certs| && j < |certs|
  {
    i != j && !IsCopy(certs, i) && !IsCopy(certs, j) && CertIssued(x, certs[i], certs[j])
  }

  function IssuerFrom(x: X509, certs: seq<Cert>, i: nat, j: nat): (r: int)
    requires i < |certs| && j <= |certs|
    ensures -1 <= r < |certs|
    ensures r >= 0 ==> j <= r && Issues(x, certs, i, r)
    ensures forall k :: j <= k < (if r >= 0 then r else |certs|) ==> !Issues(x, certs, i, k)
    decreases |certs| - j
  {
    if j == |certs| then -1 else if Issues(x, certs, i, j) then j else IssuerFrom(x, certs, i, j + 1)
  }

  function Issuers(x: X509, certs: seq<Cert>): seq<int> {
    seq(|certs|, i requires 0 <= i < |certs| => IssuerFrom(x, certs, i, 0))
  }

  /** A certificate's issuer is another first occurrence, or -1. */
  ghost predicate Graph(copy: seq<bool>, issuer: seq<int>) {
    && |copy| == |issuer|
    && (forall i :: 0 <= i < |issuer| ==> -1 <= issuer[i] < |issuer|)
    && (forall i :: 0 <= i < |issuer| && issuer[i] >= 0 ==> issuer[i] != i && !copy[i] && !copy[issuer[i]])
  }

  lemma IssuersAreGraph(x: X509, certs: seq<Cert>)
    ensures Graph(Copies(certs), Issuers(x, certs))
  {
  }

  function Leaves(copy: seq<bool>, issuer: seq<int>, n: nat): seq<nat>
    requires n <= |copy|
  {
    if n == 0 then []
    else Leaves(copy, issuer, n - 1) + (if !copy[n-1] && n - 1 !in issuer then [n - 1] else [])
  }

  ghost predicate Placed(order: seq<nat>, n: nat) {
    && (forall k :: 0 <= k < |order| ==> order[k] < n)
    && (forall j, k :: 0 <= j < k < |order| ==> order[j] != order[k])
  }

  ghost function Unplaced(order: seq<nat>, n: nat): set<nat> { set i: nat | i < n && i !in order }

  lemma PlacedMore(order: seq<nat>, at: nat, n: nat)
    requires Placed(order, n) && at < n && at !in order
    ensures Placed(order + [at], n) && Unplaced(order + [at], n) < Unplaced(order, n)
  {
    assert at in Unplaced(order, n) && at !in Unplaced(order + [at], n);
  }

  function Walk(copy: seq<bool>, issuer: seq<int>, at: int, order: seq<nat>): seq<nat>
    requires Graph(copy, issuer) && -1 <= at < |issuer| && Placed(order, |issuer|)
    decreases Unplaced(order, |issuer|)
  {
    if at < 0 || at in order then order
    else
      PlacedMore(order, at, |issuer|);
      Walk(copy, issuer, issuer[at], order + [at])
  }

  function OrderOf(copy: seq<bool>, issuer: seq<int>): seq<nat>
    requires Graph(copy, issuer)
  {
    var leaves := Leaves(copy, issuer, |copy|);
    LeavesAre(copy, issuer, |copy|);
    if |leaves| == 1 then Walk(copy, issuer, leaves[0], []) else []
  }

  lemma {:induction false} LeavesAre(copy: seq<bool>, issuer: seq<int>, n: nat)
    requires n <= |copy|
    ensures forall i: nat :: i in Leaves(copy, issuer, n) <==> i < n && !copy[i] && i !in issuer
    ensures forall i :: 0 <= i < |Leaves(copy, issuer, n)| ==> Leaves(copy, issuer, n)[i] < n
    ensures Placed(Leaves(copy, issuer, n), n)
  {
    if n > 0 {
      LeavesAre(copy, issuer, n - 1);
    }
  }

  // ----- what the walk finds -----

  ghost function Firsts(copy: seq<bool>): set<nat> { set i: nat | i < |copy| && !copy[i] }

  /** p puts every first occurrence in a line, each one's issuer next to it. */
  ghost predicate Lines(copy: seq<bool>, issuer: seq<int>, p: seq<nat>)
    requires |copy| == |issuer|
  {
    && Placed(p, |issuer|) && (forall i: nat :: i in p <==> i in Firsts(copy))
    && (forall k :: 0 < k < |p| ==> issuer[p[k-1]] == p[k])
  }

  ghost predicate Followed(copy: seq<bool>, issuer: seq<int>, order: seq<nat>)
    requires |copy| == |issuer|
  {
    && Placed(order, |issuer|) && (forall i :: i in order ==> i in Firsts(copy))
    && (forall k :: 0 < k < |order| ==> issuer[order[k-1]] == order[k])
  }

  lemma {:induction false} WalkFollows(copy: seq<bool>, issuer: seq<int>, at: int, order: seq<nat>)
    requires Graph(copy, issuer) && -1 <= at < |issuer| && Followed(copy, issuer, order)
    requires at >= 0 ==> !copy[at] && (order != [] ==> issuer[order[|order|-1]] == at)
    ensures Followed(copy, issuer, Walk(copy, issuer, at, order))
    ensures order <= Walk(copy, issuer, at, order)
    ensures at >= 0 && order == [] ==> Walk(copy, issuer, at, order) != [] && Walk(copy, issuer, at, order)[0] == at
    decreases Unplaced(order, |issuer|)
  {
    if at >= 0 && at !in order {
      PlacedMore(order, at, |issuer|);
      WalkFollows(copy, issuer, issuer[at], order + [at]);
    }
  }

  /** From the first of a line, the walk takes the whole of it. */
  lemma {:induction false} WalkTakes(copy: seq<bool>, issuer: seq<int>, p: seq<nat>, k: nat)
    requires Graph(copy, issuer) && Lines(copy, issuer, p) && 0 < k <= |p|
    ensures Placed(p[..k], |issuer|)
    ensures Walk(copy, issuer, issuer[p[k-1]], p[..k]) == p
    decreases |p| - k
  {
    if k == |p| {
      assert p[..k] == p;
      var at := issuer[p[k-1]];
      if at >= 0 {
        assert at in Firsts(copy);
      }
    } else {
      assert p[k] !in p[..k];
      assert p[..k+1] == p[..k] + [p[k]];
      PlacedMore(p[..k], p[k], |issuer|);
      WalkTakes(copy, issuer, p, k + 1);
    }
  }

  ghost function Taken(order: seq<nat>): set<nat> { set i: nat | i in order }

  lemma {:induction false} PlacedCount(order: seq<nat>, n: nat)
    requires Placed(order, n)
    ensures |Taken(order)| == |order|
  {
    if order != [] {
      var rest, at := order[..|order|-1], order[|order|-1];
      assert at !in rest;
      PlacedCount(rest, n);
      assert order == rest + [at];
      hide Placed;
      forall i: nat ensures i in Taken(order) <==> i in Taken(rest) || i == at {
      }
      assert Taken(order) == Taken(rest) + {at};
    } else {
      assert Taken(order) == {};
    }
  }

  lemma FullWhenAsMany(copy: seq<bool>, issuer: seq<int>, order: seq<nat>)
    requires |copy| == |issuer| && Followed(copy, issuer, order)
    ensures |order| == |Firsts(copy)| <==> Lines(copy, issuer, order)
  {
    PlacedCount(order, |issuer|);
    assert Taken(order) <= Firsts(copy);
    if |order| == |Firsts(copy)| {
      SubsetFull(Taken(order), Firsts(copy));
      assert forall i: nat :: i in order <==> i in Taken(order);
    }
    assert Lines(copy, issuer, order) ==> Taken(order) == Firsts(copy);
  }

  lemma SubsetFull<T>(a: set<T>, b: set<T>)
    requires a <= b && |a| == |b|
    ensures a == b
  {
    assert |b - a| == |b| - |a|;
    assert b == a + (b - a);
  }

  /** The walk takes every certificate exactly when they form a line whose last one was not issued by its first; then it
      is that line, so there is only one. */
  lemma OrderIsTheLine(copy: seq<bool>, issuer: seq<int>, p: seq<nat>)
    requires Graph(copy, issuer) && Lines(copy, issuer, p) && p != []
    requires issuer[p[|p|-1]] != p[0]
    ensures OrderOf(copy, issuer) == p
  {
    LeavesAre(copy, issuer, |copy|);
    var leaves := Leaves(copy, issuer, |copy|);
    forall i: nat | i in leaves ensures i == p[0] {
      LaterHasChild(copy, issuer, p, i);
    }
    FirstIsLeaf(copy, issuer, p);
    OnlyOne(leaves, p[0], |copy|);
    assert p[..1] == [] + [p[0]];
    PlacedMore([], p[0], |issuer|);
    WalkTakes(copy, issuer, p, 1);
  }

  lemma LaterHasChild(copy: seq<bool>, issuer: seq<int>, p: seq<nat>, i: nat)
    requires Graph(copy, issuer) && Lines(copy, issuer, p) && p != [] && i < |copy| && !copy[i]
    ensures i == p[0] || i in issuer
  {
    assert i in Firsts(copy);
    var k :| 0 <= k < |p| && p[k] == i;
    if k > 0 {
      assert issuer[p[k-1]] == i;
    }
  }

  lemma FirstIsLeaf(copy: seq<bool>, issuer: seq<int>, p: seq<nat>)
    requires Graph(copy, issuer) && Lines(copy, issuer, p) && p != []
    requires issuer[p[|p|-1]] != p[0]
    ensures p[0] in Leaves(copy, issuer, |copy|)
  {
    LeavesAre(copy, issuer, |copy|);
    assert p[0] in Firsts(copy);
    forall i | 0 <= i < |issuer| ensures issuer[i] != p[0] {
      if !copy[i] {
        assert i in p;
        var k :| 0 <= k < |p| && p[k] == i;
        assert k + 1 < |p| ==> issuer[p[k]] == p[k+1] && p[k+1] != p[0];
      }
    }
  }

  lemma OnlyOne(leaves: seq<nat>, leaf: nat, n: nat)
    requires Placed(leaves, n) && leaf in leaves && forall i: nat :: i in leaves ==> i == leaf
    ensures leaves == [leaf]
  {
    PlacedCount(leaves, n);
    assert Taken(leaves) == {leaf};
  }

  lemma OrderIsLine(copy: seq<bool>, issuer: seq<int>)
    requires Graph(copy, issuer) && Firsts(copy) != {}
    ensures var order := OrderOf(copy, issuer);
      |order| == |Firsts(copy)| <==> Lines(copy, issuer, order) && order != [] && issuer[order[|order|-1]] != order[0]
  {
    var leaves := Leaves(copy, issuer, |copy|);
    var order := OrderOf(copy, issuer);
    LeavesAre(copy, issuer, |copy|);
    if |leaves| == 1 {
      assert leaves[0] in leaves;
      WalkFollows(copy, issuer, leaves[0], []);
      FullWhenAsMany(copy, issuer, order);
      assert order[0] == leaves[0] && order[0] !in issuer;
      assert order[|order|-1] in order;
    }
  }

  // ----- checkChain -----

  predicate LinksHold(x: X509, certs: seq<Cert>) {
    forall i :: 0 < i < |certs| ==> CertIssued(x, certs[i-1], certs[i])
  }

  predicate NoCopies(certs: seq<Cert>) { forall i :: 0 <= i < |certs| ==> !IsCopy(certs, i) }

  function LinksOf(x: X509, certs: seq<Cert>, n: nat): seq<Link>
    requires n <= |certs|
  {
    if n < 2 then [] else LinksOf(x, certs, n - 1) + [CheckLink(x, certs, n - 2, n - 1)]
  }

  function FirstAt(certs: seq<Cert>, c: Cert): (r: nat)
    requires c in certs
    ensures r < |certs| && certs[r] == c && c !in certs[..r]
  {
    if certs[0] == c then 0 else 1 + FirstAt(certs[1..], c)
  }

  function CopyNotes(certs: seq<Cert>, n: nat): seq<Note>
    requires n <= |certs|
  {
    if n == 0 then []
    else CopyNotes(certs, n - 1) + (if IsCopy(certs, n - 1) then [Note(n - 1, FirstAt(certs, certs[n-1]))] else [])
  }

  ghost function ChainOf(x: X509, certs: seq<Cert>): Chain {
    IssuersAreGraph(x, certs);
    var copy, issuer := Copies(certs), Issuers(x, certs);
    var leaves, order := Leaves(copy, issuer, |certs|), OrderOf(copy, issuer);
    var links, notes := LinksOf(x, certs, |certs|), CopyNotes(certs, |certs|);
    var failing := exists l :: l in links && Fails(l);
    if LinksHold(x, certs) && NoCopies(certs) then
      Chain(links, failing, true, notes, [], InOrder, |certs| - 1, EndsAtRoot(x, certs, |certs| - 1))
    else if |order| == |Firsts(copy)| then
      var last: int := if order == [] then -1 else order[|order|-1];
      Chain(links, failing, false, notes, order, OutOfOrder, last, EndsAtRoot(x, certs, last))
    else
      Chain(links, failing, false, notes, [],
            if |leaves| > 1 then SeveralLeaves else if |leaves| == 0 then Loop else Partial, -1, false)
  }

  predicate EndsAtRoot(x: X509, certs: seq<Cert>, last: int) {
    0 <= last < |certs| && CertIssued(x, certs[last], certs[last])
  }

  /** A failing link is noted exactly when some certificate was issued by the next one and the link is refused. */
  lemma FailingIff(x: X509, certs: seq<Cert>)
    ensures ChainOf(x, certs).failing <==> exists i :: 0 < i < |certs| && Refused(x, certs[i-1], certs[i])
  {
    LinksFail(x, certs, |certs|);
    hide LinksOf, Fails, Refused, LinksHold, NoCopies, CopyNotes;
  }

  lemma {:induction false} LinksFail(x: X509, certs: seq<Cert>, n: nat)
    requires n <= |certs|
    ensures (exists l :: l in LinksOf(x, certs, n) && Fails(l)) <==>
            exists i :: 0 < i < n && Refused(x, certs[i-1], certs[i])
  {
    if n >= 2 {
      LinksFail(x, certs, n - 1);
      var l := CheckLink(x, certs, n - 2, n - 1);
      assert l in LinksOf(x, certs, n);
      assert Fails(l) <==> Refused(x, certs[n-2], certs[n-1]);
      assert forall m :: m in LinksOf(x, certs, n) <==> m in LinksOf(x, certs, n - 1) || m == l;
      hide LinksOf, Fails, Refused;
    } else {
      assert LinksOf(x, certs, n) == [];
    }
  }

  /** A chain accepted or suggested is said to end at a root exactly when its last certificate issued itself. */
  lemma RootIff(x: X509, certs: seq<Cert>)
    requires certs != []
    ensures var ch := ChainOf(x, certs);
      ch.selfSigned <==>
        if ch.orderOK then CertIssued(x, certs[|certs|-1], certs[|certs|-1])
        else ch.suggested != [] && ch.suggested[|ch.suggested|-1] < |certs|
             && CertIssued(x, certs[ch.suggested[|ch.suggested|-1]], certs[ch.suggested[|ch.suggested|-1]])
  {
    hide CertIssued, LinksOf, CopyNotes, LinksHold, NoCopies, Leaves;
  }

  /** Links and copies as they are shown: one for each neighbouring pair, and one for each later copy with the first
      certificate it repeats. */
  lemma {:induction false} LinksAre(x: X509, certs: seq<Cert>, n: nat)
    requires n <= |certs|
    ensures |LinksOf(x, certs, n)| == (if n < 2 then 0 else n - 1)
    ensures forall i :: 0 <= i < |LinksOf(x, certs, n)| ==> LinksOf(x, certs, n)[i] == CheckLink(x, certs, i, i + 1)
  {
    hide CheckLink;
    if n >= 2 {
      LinksAre(x, certs, n - 1);
    }
  }

  lemma {:induction false} NotesAre(certs: seq<Cert>, n: nat, note: Note)
    requires n <= |certs|
    ensures note in CopyNotes(certs, n) <==>
            && note.of < note.copy < n && certs[note.of] == certs[note.copy]
            && forall i :: 0 <= i < note.of ==> certs[i] != certs[note.copy]
  {
    if n > 0 {
      NotesAre(certs, n - 1, note);
      var r := FirstAt(certs, certs[n-1]);
      assert forall i :: 0 <= i < r ==> certs[..r][i] == certs[i] && certs[i] != certs[n-1];
      if note.copy == n - 1 && note.of < n - 1 && certs[note.of] == certs[n-1]
        && forall i :: 0 <= i < note.of ==> certs[i] != certs[n-1] {
        assert note.of == r;
      }
    }
  }

  /** A first occurrence that is nobody's first issuer. */
  ghost predicate IsLeaf(x: X509, certs: seq<Cert>, i: int) {
    && 0 <= i < |certs| && (forall j :: 0 <= j < i ==> certs[j] != certs[i])
    && (forall k :: 0 <= k < |certs| ==> IssuerFrom(x, certs, k, 0) != i)
  }

  ghost predicate SomeLeaf(x: X509, certs: seq<Cert>) { exists i :: IsLeaf(x, certs, i) }

  ghost predicate TwoLeaves(x: X509, certs: seq<Cert>) {
    exists i, j :: i < j && IsLeaf(x, certs, i) && IsLeaf(x, certs, j)
  }

  /** An input is accepted exactly when each certificate was issued by the next and none repeats another. */
  lemma AcceptedIff(x: X509, certs: seq<Cert>)
    ensures ChainOf(x, certs).orderOK <==>
      && (forall i :: 0 < i < |certs| ==> CertIssued(x, certs[i-1], certs[i]))
      && (forall i, j :: 0 <= i < j < |certs| ==> certs[i] != certs[j])
  {
    hide CertIssued, LinksOf, CopyNotes, Leaves, OrderOf, IssuerFrom;
    if NoCopies(certs) {
      forall i, j | 0 <= i < j < |certs| ensures certs[i] != certs[j] {
        assert !IsCopy(certs, j);
      }
    }
  }

  /** Which verdict is given: out of order when an order is suggested; without one, by how many leaves there are. */
  lemma VerdictIff(x: X509, certs: seq<Cert>)
    requires certs != []
    ensures var ch := ChainOf(x, certs);
      && (ch.verdict == InOrder <==> ch.orderOK) && (ch.orderOK ==> ch.last == |certs| - 1)
      && (ch.verdict == OutOfOrder <==> ch.suggested != [])
      && (ch.verdict == SeveralLeaves <==> !ch.orderOK && ch.suggested == [] && TwoLeaves(x, certs))
      && (ch.verdict == Loop <==> !ch.orderOK && ch.suggested == [] && !SomeLeaf(x, certs))
      && (ch.verdict == Partial <==>
            !ch.orderOK && ch.suggested == [] && SomeLeaf(x, certs) && !TwoLeaves(x, certs))
  {
    SomeFirst(certs);
    LeavesTell(x, certs);
    hide Leaves, SomeLeaf, TwoLeaves, LinksOf, CopyNotes, CertIssued, Graph, IssuerFrom, Fails, EndsAtRoot, OrderOf,
      LinksHold, NoCopies, IsCopy;
    var firsts := Firsts(Copies(certs));
    assert |firsts| > 0;
  }

  lemma LeavesTell(x: X509, certs: seq<Cert>)
    ensures var leaves := Leaves(Copies(certs), Issuers(x, certs), |certs|);
      (|leaves| > 1 <==> TwoLeaves(x, certs)) && (|leaves| > 0 <==> SomeLeaf(x, certs))
  {
    var copy, issuer := Copies(certs), Issuers(x, certs);
    var leaves := Leaves(copy, issuer, |certs|);
    LeavesAre(copy, issuer, |certs|);
    forall i: nat ensures i in leaves <==> IsLeaf(x, certs, i) {
      LeafIs(x, certs, i);
    }
    assert forall i :: IsLeaf(x, certs, i) ==> i >= 0;
    hide Leaves, IsLeaf, IssuerFrom;
    if |leaves| > 1 {
      var i, j := leaves[0], leaves[1];
      assert i in leaves && j in leaves && i != j;
      assert IsLeaf(x, certs, if i < j then i else j) && IsLeaf(x, certs, if i < j then j else i);
    }
    if i, j :| i < j && IsLeaf(x, certs, i) && IsLeaf(x, certs, j) {
      assert i in leaves && j in leaves;
      assert |leaves| != 1;
    }
    if |leaves| >= 1 {
      assert leaves[0] in leaves;
    }
  }

  lemma LeafIs(x: X509, certs: seq<Cert>, i: nat)
    ensures i < |certs| ==> (!Copies(certs)[i] && i !in Issuers(x, certs) <==> IsLeaf(x, certs, i))
    ensures i >= |certs| ==> !IsLeaf(x, certs, i)
  {
    var issuers := Issuers(x, certs);
    assert forall k :: 0 <= k < |certs| ==> issuers[k] == IssuerFrom(x, certs, k, 0);
    hide IssuerFrom, Issuers;
  }

  method CheckLinks(x: X509, certs: seq<Cert>) returns (links: seq<Link>, ok: bool, failing: bool)
    ensures links == LinksOf(x, certs, |certs|) && (ok <==> LinksHold(x, certs))
    ensures failing <==> exists l :: l in links && Fails(l)
  {
    links, ok, failing := [], true, false;
    var i := 0;
    while i + 1 < |certs|
      invariant i <= |certs| && (certs != [] ==> i < |certs|)
      invariant links == LinksOf(x, certs, if certs == [] then 0 else i + 1)
      invariant ok <==> forall k :: 0 < k <= i ==> CertIssued(x, certs[k-1], certs[k])
      invariant failing <==> exists l :: l in links && Fails(l)
    {
      var l := CheckLink(x, certs, i, i + 1);
      links := links + [l];
      ok := ok && l.issued;
      failing := failing || Fails(l);
      i := i + 1;
    }
  }

  ghost predicate Seen(certs: seq<Cert>, n: nat, seen: map<string, nat>)
    requires n <= |certs|
  {
    && (forall i :: 0 <= i < n ==> certs[i].raw in seen)
    && (forall r :: r in seen ==> seen[r] < n && certs[seen[r]].raw == r && !IsCopy(certs, seen[r]))
  }

  lemma SeenNext(certs: seq<Cert>, n: nat, seen: map<string, nat>)
    requires n < |certs| && Seen(certs, n, seen)
    ensures certs[n].raw in seen <==> IsCopy(certs, n)
    ensures certs[n].raw in seen ==> seen[certs[n].raw] == FirstAt(certs, certs[n]) && Seen(certs, n + 1, seen)
    ensures certs[n].raw !in seen ==> Seen(certs, n + 1, seen[certs[n].raw := n])
  {
    var raw := certs[n].raw;
    assert certs[n] == Cert(raw);
    if raw in seen {
      assert certs[seen[raw]] == certs[n];
      SameFirst(certs, certs[n], seen[raw]);
    }
  }

  lemma SameFirst(certs: seq<Cert>, c: Cert, i: nat)
    requires i < |certs| && certs[i] == c && !IsCopy(certs, i)
    ensures FirstAt(certs, c) == i
  {
    var j := FirstAt(certs, c);
    forall k | 0 <= k < j ensures certs[k] != c {
      assert certs[..j][k] in certs[..j];
    }
  }

  ghost function FirstsTo(certs: seq<Cert>, n: nat): set<nat>
    requires n <= |certs|
  {
    set i: nat | i < n && !IsCopy(certs, i)
  }

  lemma FirstsNext(certs: seq<Cert>, n: nat)
    requires n < |certs|
    ensures |FirstsTo(certs, n + 1)| == |FirstsTo(certs, n)| + (if IsCopy(certs, n) then 0 else 1)
  {
    assert FirstsTo(certs, n + 1) == FirstsTo(certs, n) + (if IsCopy(certs, n) then {} else {n});
  }

  lemma NoneSeen(certs: seq<Cert>)
    ensures Seen(certs, 0, map[]) && |FirstsTo(certs, 0)| == 0
  {
    assert FirstsTo(certs, 0) == {};
  }

  lemma FirstsAll(certs: seq<Cert>)
    ensures Firsts(Copies(certs)) == FirstsTo(certs, |certs|)
  {
  }

  method FindCopies(certs: seq<Cert>) returns (dup: array<bool>, notes: seq<Note>, distinct: nat)
    ensures fresh(dup) && dup[..] == Copies(certs) && notes == CopyNotes(certs, |certs|)
    ensures distinct == |Firsts(Copies(certs))|
  {
    hide IsCopy, Seen, FirstsTo;
    dup := new bool[|certs|](_ => false);
    notes := [];
    var seen: map<string, nat> := map[];
    NoneSeen(certs);
    for i := 0 to |certs|
      invariant forall k :: 0 <= k < i ==> dup[k] == IsCopy(certs, k)
      invariant forall k :: i <= k < |certs| ==> !dup[k]
      invariant notes == CopyNotes(certs, i)
      invariant Seen(certs, i, seen) && |seen| == |FirstsTo(certs, i)|
    {
      SeenNext(certs, i, seen);
      FirstsNext(certs, i);
      if certs[i].raw in seen {
        dup[i] := true;
        notes := notes + [Note(i, seen[certs[i].raw])];
      } else {
        seen := seen[certs[i].raw := i];
      }
    }
    distinct := |seen|;
    FirstsAll(certs);
  }

  method FindIssuers(x: X509, certs: seq<Cert>, dup: array<bool>) returns (issuer: array<int>)
    requires dup[..] == Copies(certs)
    ensures fresh(issuer) && issuer[..] == Issuers(x, certs)
  {
    issuer := new int[|certs|](_ => -1);
    for i := 0 to |certs|
      invariant forall k :: 0 <= k < i ==> issuer[k] == IssuerFrom(x, certs, k, 0)
      invariant forall k :: i <= k < |certs| ==> issuer[k] == -1
    {
      var j := 0;
      while j < |certs|
        invariant j <= |certs|
        invariant issuer[i] == -1 && IssuerFrom(x, certs, i, 0) == IssuerFrom(x, certs, i, j)
        invariant forall k :: 0 <= k < i ==> issuer[k] == IssuerFrom(x, certs, k, 0)
        invariant forall k :: i <= k < |certs| ==> issuer[k] == -1
      {
        assert dup[..][i] == dup[i] && dup[..][j] == dup[j];
        if i != j && !dup[i] && !dup[j] && CertIssued(x, certs[i], certs[j]) {
          issuer[i] := j;
          break;
        }
        j := j + 1;
      }
    }
  }

  method FindLeaves(dup: array<bool>, issuer: array<int>) returns (leaves: seq<nat>)
    requires dup.Length == issuer.Length
    ensures leaves == Leaves(dup[..], issuer[..], dup.Length)
  {
    leaves := [];
    for i := 0 to dup.Length
      invariant leaves == Leaves(dup[..], issuer[..], i)
    {
      if !dup[i] && i !in issuer[..] {
        leaves := leaves + [i];
      }
    }
  }

  method FollowIssuers(ghost copy: seq<bool>, issuer: array<int>, leaf: nat) returns (order: seq<nat>)
    requires Graph(copy, issuer[..]) && leaf < issuer.Length
    ensures order == Walk(copy, issuer[..], leaf, [])
  {
    order := [];
    var at: int := leaf;
    while at >= 0 && at !in order
      invariant -1 <= at < issuer.Length && Placed(order, issuer.Length)
      invariant Walk(copy, issuer[..], leaf, []) == Walk(copy, issuer[..], at, order)
      decreases Unplaced(order, issuer.Length)
    {
      PlacedMore(order, at, issuer.Length);
      order := order + [at];
      at := issuer[at];
    }
  }

  method CheckChain(x: X509, certs: seq<Cert>) returns (ch: Chain)
    ensures ch == ChainOf(x, certs)
  {
    hide Fails, EndsAtRoot, IsCopy, Issues, IssuerFrom, Leaves, Walk, LinksOf, CopyNotes, CertIssued, Graph;
    var links, ok, failing := CheckLinks(x, certs);
    var dup, notes, distinct := FindCopies(certs);
    var issuer := FindIssuers(x, certs, dup);
    var leaves := FindLeaves(dup, issuer);
    IssuersAreGraph(x, certs);
    LeavesAre(dup[..], issuer[..], |certs|);
    var order := [];
    if |leaves| == 1 {
      order := FollowIssuers(dup[..], issuer, leaves[0]);
    }
    NoteEach(certs, |certs|);
    ok := ok && notes == [];
    if ok {
      ch := Chain(links, failing, true, notes, [], InOrder, |certs| - 1, EndsAtRoot(x, certs, |certs| - 1));
    } else if |order| == distinct {
      var last: int := if order == [] then -1 else order[|order|-1];
      ch := Chain(links, failing, false, notes, order, OutOfOrder, last, EndsAtRoot(x, certs, last));
    } else if |leaves| > 1 {
      ch := Chain(links, failing, false, notes, [], SeveralLeaves, -1, false);
    } else if |leaves| == 0 {
      ch := Chain(links, failing, false, notes, [], Loop, -1, false);
    } else {
      ch := Chain(links, failing, false, notes, [], Partial, -1, false);
    }
  }

  lemma {:induction false} NoteEach(certs: seq<Cert>, n: nat)
    requires n <= |certs|
    ensures CopyNotes(certs, n) == [] <==> forall i :: 0 <= i < n ==> !IsCopy(certs, i)
  {
    if n > 0 {
      NoteEach(certs, n - 1);
    }
  }

  // ----- what a suggestion means -----

  /** p lists every distinct certificate once. */
  ghost predicate ListsEach(certs: seq<Cert>, p: seq<nat>) {
    && Placed(p, |certs|)
    && (forall i: nat :: i in p <==> i < |certs| && !IsCopy(certs, i))
  }

  lemma ListedOnce(certs: seq<Cert>, p: seq<nat>)
    requires ListsEach(certs, p)
    ensures forall c :: c in certs ==> exists k :: 0 <= k < |p| && certs[p[k]] == c
    ensures forall j, k :: 0 <= j < k < |p| ==> certs[p[j]] != certs[p[k]]
  {
    forall c | c in certs ensures exists k :: 0 <= k < |p| && certs[p[k]] == c {
      var r := FirstAt(certs, c);
      assert !IsCopy(certs, r) by {
        forall j | 0 <= j < r ensures certs[j] != c { assert certs[..r][j] in certs[..r]; }
      }
      assert r in p;
    }
    forall j, k | 0 <= j < k < |p| ensures certs[p[j]] != certs[p[k]] {
      assert p[j] in p && p[k] in p;
      assert !IsCopy(certs, p[j]) && !IsCopy(certs, p[k]);
    }
  }

  lemma LinesIff(x: X509, certs: seq<Cert>, p: seq<nat>)
    ensures Lines(Copies(certs), Issuers(x, certs), p)
      <==> ListsEach(certs, p) && forall k :: 0 < k < |p| ==> IssuerFrom(x, certs, p[k-1], 0) == p[k]
  {
    var copy := Copies(certs);
    assert forall i: nat :: i in Firsts(copy) <==> i < |certs| && !IsCopy(certs, i);
  }

  /** A suggestion lists every distinct certificate once and each is issued by the next; it is only made for an input
      not already in order. */
  lemma SuggestionIsSound(x: X509, certs: seq<Cert>)
    requires ChainOf(x, certs).suggested != []
    ensures var ch := ChainOf(x, certs); var s := ch.suggested;
      && !ch.orderOK && ch.verdict == OutOfOrder && ch.last == s[|s|-1] && ListsEach(certs, s)
      && forall k :: 0 < k < |s| ==> CertIssued(x, certs[s[k-1]], certs[s[k]])
  {
    var copy, issuer := Copies(certs), Issuers(x, certs);
    var s := ChainOf(x, certs).suggested;
    IssuersAreGraph(x, certs);
    SomeFirst(certs);
    OrderIsLine(copy, issuer);
    LinesIff(x, certs, s);
    hide IsCopy, Leaves, Walk, LinksOf, CopyNotes, CertIssued, Graph, Lines;
    forall k | 0 < k < |s| ensures Issues(x, certs, s[k-1], s[k]) {
      assert s[k-1] in s;
      assert IssuerFrom(x, certs, s[k-1], 0) == s[k];
    }
  }

  lemma SomeFirst(certs: seq<Cert>)
    ensures certs != [] ==> Firsts(Copies(certs)) != {}
  {
    if certs != [] {
      assert !IsCopy(certs, 0);
      assert 0 in Firsts(Copies(certs));
    }
  }

  /** p is the line first issuers make, and its first certificate did not issue its last. */
  ghost predicate IsLine(x: X509, certs: seq<Cert>, p: seq<nat>) {
    && p != [] && ListsEach(certs, p)
    && (forall k :: 0 < k < |p| ==> IssuerFrom(x, certs, p[k-1], 0) == p[k])
    && IssuerFrom(x, certs, p[|p|-1], 0) != p[0]
  }

  lemma LineIsSuggested(x: X509, certs: seq<Cert>, p: seq<nat>)
    requires IsLine(x, certs, p)
    ensures p != [] && (ChainOf(x, certs).orderOK || ChainOf(x, certs).suggested == p)
  {
    var copy, issuer := Copies(certs), Issuers(x, certs);
    IssuersAreGraph(x, certs);
    LinesIff(x, certs, p);
    assert issuer[p[|p|-1]] != p[0];
    SomeFirst(certs);
    hide IsCopy, Leaves, Walk, LinksOf, CopyNotes, CertIssued, Graph, Lines, IssuerFrom, IsLine, ListsEach, LinksHold;
    OrderIsTheLine(copy, issuer, p);
    OrderIsLine(copy, issuer);
  }

  lemma SuggestionIsLine(x: X509, certs: seq<Cert>)
    requires certs != []
    ensures ChainOf(x, certs).suggested != [] ==> IsLine(x, certs, ChainOf(x, certs).suggested)
  {
    var copy, issuer := Copies(certs), Issuers(x, certs);
    IssuersAreGraph(x, certs);
    SomeFirst(certs);
    LinesIff(x, certs, ChainOf(x, certs).suggested);
    OrderIsLine(copy, issuer);
    hide IsCopy, Leaves, Walk, LinksOf, CopyNotes, CertIssued, Graph, IssuerFrom, LinksHold;
  }

  lemma AcceptedSuggestsNothing(x: X509, certs: seq<Cert>)
    ensures ChainOf(x, certs).orderOK ==> ChainOf(x, certs).suggested == []
  {
  }

  /** Exactly when a suggestion is made: the input is not accepted and the first issuers form one line, the one
      suggested. */
  lemma SuggestedIff(x: X509, certs: seq<Cert>)
    requires certs != []
    ensures var ch := ChainOf(x, certs);
      && (ch.suggested != [] <==> !ch.orderOK && exists p :: IsLine(x, certs, p))
      && (ch.suggested != [] ==> IsLine(x, certs, ch.suggested))
  {
    hide ChainOf, IsLine;
    SuggestionIsLine(x, certs);
    AcceptedSuggestsNothing(x, certs);
    if p :| IsLine(x, certs, p) {
      LineIsSuggested(x, certs, p);
    }
  }

  /** p is a chain from leaf to top: each certificate issued by the next, the last by none of the others. */
  ghost predicate IsChain(x: X509, certs: seq<Cert>, p: seq<nat>) {
    && p != [] && ListsEach(certs, p)
    && (forall k :: 0 < k < |p| ==> CertIssued(x, certs[p[k-1]], certs[p[k]]))
    && Top(x, certs, p[|p|-1])
  }

  ghost predicate Top(x: X509, certs: seq<Cert>, i: nat)
    requires i < |certs|
  {
    forall j :: 0 <= j < |certs| ==> !Issues(x, certs, i, j)
  }

  ghost predicate OneIssuerEach(x: X509, certs: seq<Cert>) {
    forall i, j, k | 0 <= i < |certs| && 0 <= j < |certs| && 0 <= k < |certs| ::
      Issues(x, certs, i, j) && Issues(x, certs, i, k) ==> j == k
  }

  /** With no more than one issuer each, any chain the certificates form is found, whatever order they came in. */
  lemma ChainIsFound(x: X509, certs: seq<Cert>, p: seq<nat>)
    requires OneIssuerEach(x, certs) && IsChain(x, certs, p)
    ensures ChainOf(x, certs).orderOK || ChainOf(x, certs).suggested == p
  {
    forall k | 0 < k < |p| ensures IssuerFrom(x, certs, p[k-1], 0) == p[k] {
      assert p[k-1] in p && p[k] in p;
      assert Issues(x, certs, p[k-1], p[k]);
    }
    assert p[|p|-1] in p;
    assert IssuerFrom(x, certs, p[|p|-1], 0) == -1;
    LineIsSuggested(x, certs, p);
  }

  predicate Missed(ch: Chain) { !ch.orderOK && ch.suggested == [] }

  /** Cross-signing defeats it: with one key under two certificates, a chain whose leaf both of them issued, given in an
      order that finds the far one first, is neither accepted nor suggested. */
  lemma CrossSignedIsMissed()
    ensures exists x, certs, p ::
      IsChain(x, certs, p) && Missed(ChainOf(x, certs)) && ChainOf(x, certs).verdict == SeveralLeaves
  {
    hide ChainOf, IsChain, Missed, IsCopy;
    var leaf, mid, root := Cert("leaf"), Cert("mid"), Cert("root");
    var x := X509(_ => "", _ => "",
                  (c, p) => p != leaf && (c == leaf || c == mid), (c, p) => false,
                  (c, p) => Accepted, _ => false);
    var certs := [leaf, root, mid];
    assert CrossSigning(x, certs);
    hide *;
    CrossSigned(x, certs);
    CrossSignedChain(x, certs);
  }

  ghost predicate CrossSigning(x: X509, certs: seq<Cert>) {
    && |certs| == 3 && certs[0] != certs[1] && certs[1] != certs[2] && certs[0] != certs[2]
    && forall c, p :: c in certs && p in certs ==>
      (CertIssued(x, c, p) <==> p != certs[0] && (c == certs[0] || c == certs[2]))
  }

  lemma CrossSignedIssues(x: X509, certs: seq<Cert>)
    requires CrossSigning(x, certs)
    ensures forall i :: 0 <= i < 3 ==> !IsCopy(certs, i)
    ensures forall i, j | 0 <= i < 3 && 0 <= j < 3 ::
              Issues(x, certs, i, j) <==> (i == 0 && j != 0) || (i == 2 && j == 1)
    ensures !CertIssued(x, certs[1], certs[2])
  {
    forall i, j | 0 <= i < 3 && 0 <= j < 3
      ensures Issues(x, certs, i, j) <==> (i == 0 && j != 0) || (i == 2 && j == 1)
    {
      assert certs[i] in certs && certs[j] in certs;
    }
    assert certs[1] in certs && certs[2] in certs;
  }

  lemma CrossSignedChain(x: X509, certs: seq<Cert>)
    requires CrossSigning(x, certs)
    ensures IsChain(x, certs, [0, 2, 1])
  {
    CrossSignedIssues(x, certs);
    assert Issues(x, certs, 0, 2) && Issues(x, certs, 2, 1);
    hide IsCopy, CrossSigning;
    var p: seq<nat> := [0, 2, 1];
    assert p[0] == 0 && p[1] == 2 && p[2] == 1;
    assert Top(x, certs, 1);
    assert ListsEach(certs, p);
  }

  lemma CrossSigned(x: X509, certs: seq<Cert>)
    requires CrossSigning(x, certs)
    ensures Missed(ChainOf(x, certs)) && ChainOf(x, certs).verdict == SeveralLeaves
  {
    var copy, issuer := Copies(certs), Issuers(x, certs);
    CrossSignedIssues(x, certs);
    IssuersAreGraph(x, certs);
    assert issuer[0] == 1 && issuer[1] == -1 && issuer[2] == 1 by {
      assert Issues(x, certs, 0, 1) && Issues(x, certs, 2, 1) && !Issues(x, certs, 2, 0);
    }
    assert !LinksHold(x, certs);
    assert 0 in Firsts(copy);
    LeavesAre(copy, issuer, 3);
    hide *;
    var leaves := Leaves(copy, issuer, 3);
    assert 0 in leaves && 2 in leaves;
    assert |leaves| > 1;
    ManyLeaves(x, certs);
  }

  lemma ManyLeaves(x: X509, certs: seq<Cert>)
    requires |Leaves(Copies(certs), Issuers(x, certs), |certs|)| > 1 && !LinksHold(x, certs)
    requires Firsts(Copies(certs)) != {}
    ensures Missed(ChainOf(x, certs)) && ChainOf(x, certs).verdict == SeveralLeaves
  {
  }
}
