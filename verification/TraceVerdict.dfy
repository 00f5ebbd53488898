/** The answer, the verdict, and what each verdict is worth. */
module TraceVerdict {
  import opened Basics
  import opened DnsRecords
  import opened TraceChecks
  import opened TraceRounds
  import opened TraceEvidence

  // ----- the answer -----

  function OfType(rrs: seq<RR>, t: RType): (r: seq<RR>)
    ensures forall rr :: rr in r <==> rr in rrs && rr.Type() == t
  {
    if rrs == [] then []
    else
      var init, last := OfType(rrs[..|rrs|-1], t), rrs[|rrs|-1];
      if last.Type() == t then init + [last] else init
  }

  /** The alias the walk shows: the first one in the answer, whoever owns it. */
  function ShownAlias(rrs: seq<RR>, want: RType): Option<RR> {
    if want != TypeCNAME && OfType(rrs, TypeCNAME) != [] then Some(OfType(rrs, TypeCNAME)[0]) else None
  }

  /** Records of a type keep the order and number they have. */
  lemma {:induction false} OfTypeAppend(a: seq<RR>, b: seq<RR>, t: RType)
    ensures OfType(a + b, t) == OfType(a, t) + OfType(b, t)
  {
    if b == [] {
      assert a + b == a;
    } else {
      var k := |b| - 1;
      assert (a + b)[..|a| + k] == a + b[..k];
      OfTypeAppend(a, b[..k], t);
    }
  }

  lemma {:induction false} NoneOfType(rrs: seq<RR>, t: RType)
    requires forall rr :: rr in rrs ==> rr.Type() != t
    ensures OfType(rrs, t) == []
  {
    if rrs != [] {
      assert rrs[|rrs|-1] in rrs;
      NoneOfType(rrs[..|rrs|-1], t);
    }
  }

  /** Where a reply's first alias is. */
  ghost predicate FirstAlias(rrs: seq<RR>, i: int) {
    0 <= i < |rrs| && rrs[i].data.Alias? && forall j :: 0 <= j < i ==> !rrs[j].data.Alias?
  }

  lemma {:induction false} ShownAliasIs(rrs: seq<RR>, want: RType)
    requires want != TypeCNAME
    ensures ShownAlias(rrs, want) == None <==> forall rr :: rr in rrs ==> !rr.data.Alias?
    ensures forall i :: FirstAlias(rrs, i) ==> ShownAlias(rrs, want) == Some(rrs[i])
  {
    forall rr | rr in rrs ensures rr.data.Alias? <==> rr.Type() == TypeCNAME {
    }
    assert OfType(rrs, TypeCNAME) != [] ==> OfType(rrs, TypeCNAME)[0] in OfType(rrs, TypeCNAME);
    forall i | FirstAlias(rrs, i) ensures ShownAlias(rrs, want) == Some(rrs[i]) {
      var before, from := rrs[..i], rrs[i..];
      assert rrs == before + ([rrs[i]] + rrs[i+1..]);
      OfTypeAppend(before, [rrs[i]] + rrs[i+1..], TypeCNAME);
      OfTypeAppend([rrs[i]], rrs[i+1..], TypeCNAME);
      NoneOfType(before, TypeCNAME);
      assert [rrs[i]][..0] == [] && OfType([rrs[i]], TypeCNAME) == [rrs[i]];
      hide OfType;
    }
  }

  /** Owners of some records, first-seen order, each once. */
  function Owners(rrs: seq<RR>): seq<Name> {
    if rrs == [] then []
    else
      var init, last := Owners(rrs[..|rrs|-1]), rrs[|rrs|-1];
      if last.owner in init then init else init + [last.owner]
  }

  lemma {:induction false} OwnersAreOwners(rrs: seq<RR>, o: Name)
    ensures o in Owners(rrs) <==> exists rr :: rr in rrs && rr.owner == o
  {
    if rrs != [] {
      OwnersAreOwners(rrs[..|rrs|-1], o);
      assert forall rr :: rr in rrs <==> rr in rrs[..|rrs|-1] || rr == rrs[|rrs|-1];
    }
  }

  lemma OwnersEmptyIff(rrs: seq<RR>)
    ensures Owners(rrs) == [] <==> rrs == []
  {
    if rrs != [] {
      OwnersAreOwners(rrs, rrs[0].owner);
    }
  }

  /** The RRset owners whose signatures the walk checks, and below the type: of an alias alone, qname's alias set. */
  function JudgedOwners(shown: Shown, qname: Name): seq<Name> {
    if shown.records == [] && shown.cname.Some? then [qname] else Owners(shown.records)
  }

  function JudgedType(shown: Shown, qtype: RType): RType {
    if shown.records == [] && shown.cname.Some? then TypeCNAME else qtype
  }

  /** The first owner whose RRset does not verify decides the answer's state. */
  ghost predicate StateDecided(c: Crypto, rrs: seq<RR>, owners: seq<Name>, t: RType, keys: seq<Key>, zone: Name,
                               state: AnswerState) {
    || (state == Verified && forall o :: o in owners ==> RRsetState(c, rrs, o, t, keys, zone) == Verified)
    || (&& state != Verified
        && exists i :: 0 <= i < |owners| && state == RRsetState(c, rrs, owners[i], t, keys, zone)
             && forall j :: 0 <= j < i ==> RRsetState(c, rrs, owners[j], t, keys, zone) == Verified)
  }

  lemma StateDecidedSnoc(c: Crypto, rrs: seq<RR>, owners: seq<Name>, o: Name, t: RType, keys: seq<Key>, zone: Name,
                         state: AnswerState)
    requires StateDecided(c, rrs, owners, t, keys, zone, state)
    ensures StateDecided(c, rrs, owners + [o], t, keys, zone,
                         if state == Verified then RRsetState(c, rrs, o, t, keys, zone) else state)
  {
    var all := owners + [o];
    assert all[|owners|] == o;
    if state != Verified {
      var i :| 0 <= i < |owners| && state == RRsetState(c, rrs, owners[i], t, keys, zone)
        && forall j :: 0 <= j < i ==> RRsetState(c, rrs, owners[j], t, keys, zone) == Verified;
      assert all[i] == owners[i];
      assert forall j :: 0 <= j < i ==> all[j] == owners[j];
    } else if RRsetState(c, rrs, o, t, keys, zone) != Verified {
      assert forall j :: 0 <= j < |owners| ==> all[j] == owners[j] && owners[j] in owners;
    }
  }

  /** The shown part of an answer, filled in from an authoritative reply. */
  ghost predicate ShownFrom(m: Msg, qtype: RType, zone: Name, shown: Shown) {
    && shown.zone == Some(zone) && shown.rcode == m.rcode
    && shown.records == OfType(m.answer, qtype) && shown.cname == ShownAlias(m.answer, qtype)
  }

  /** What finish concludes about the records shown, from the last link's keys. */
  ghost predicate AnswerJudged(c: Crypto, m: Msg, qname: Name, qtype: RType, zone: Name, keys: Option<seq<Key>>,
                               shown: Shown, state: AnswerState) {
    var owners, t := JudgedOwners(shown, qname), JudgedType(shown, qtype);
    && ShownFrom(m, qtype, zone, shown)
    && (|| (owners == [] && state == NoAnswer && !shown.signed && !shown.verified)
        || (owners != [] && keys == None && state == Unchecked && !shown.signed && !shown.verified)
        || (&& owners != [] && keys.Some? && StateDecided(c, m.answer, owners, t, keys.value, zone, state)
            && (shown.verified <==> state == Verified)
            && (shown.signed <==>
                  forall o :: o in owners ==> RRsetState(c, m.answer, o, t, keys.value, zone) != Unsigned)))
  }

  /** Every record shown lies in an RRset the zone's keys signed in date; of an alias alone, qname's alias set does. */
  ghost predicate AnswerVouched(c: Crypto, rrs: seq<RR>, qname: Name, qtype: RType, keys: seq<Key>, zone: Name,
                                shown: Shown) {
    if shown.records != [] then
      forall rr :: rr in shown.records ==>
        rr in RRset(rrs, rr.owner, qtype) && RRsetVouched(c, rrs, rr.owner, qtype, keys, zone)
    else
      shown.cname.Some? && shown.cname == ShownAlias(rrs, qtype) && RRsetVouched(c, rrs, qname, TypeCNAME, keys, zone)
  }

  lemma VerifiedAnswerIsVouched(c: Crypto, m: Msg, qname: Name, qtype: RType, zone: Name, keys: Option<seq<Key>>,
                                shown: Shown)
    requires AnswerJudged(c, m, qname, qtype, zone, keys, shown, Verified)
    ensures keys.Some? && AnswerVouched(c, m.answer, qname, qtype, keys.value, zone, shown)
  {
    var owners := JudgedOwners(shown, qname);
    OwnersEmptyIff(shown.records);
    if shown.records == [] {
      assert qname in owners;
    } else {
      forall rr | rr in shown.records
        ensures rr in RRset(m.answer, rr.owner, qtype) && RRsetVouched(c, m.answer, rr.owner, qtype, keys.value, zone)
      {
        OwnersAreOwners(shown.records, rr.owner);
        assert rr.owner in owners;
      }
    }
  }

  lemma JudgedAnswerIsSet(c: Crypto, m: Msg, qname: Name, qtype: RType, zone: Name, keys: Option<seq<Key>>,
                          shown: Shown, state: AnswerState)
    requires AnswerJudged(c, m, qname, qtype, zone, keys, shown, state)
    ensures state != Unset
  {
  }

  /** A failed answer: the answering zone signed one of the RRsets shown, and no such signature verifies. */
  ghost predicate AnswerRefuted(c: Crypto, rrs: seq<RR>, owners: seq<Name>, t: RType, keys: seq<Key>,
                                zone: Name) {
    exists o, sig :: o in owners && sig in Sigs(rrs, o, t) && sig.signer == zone && RRset(rrs, o, t) != []
      && !RRsetVouched(c, rrs, o, t, keys, zone)
  }

  lemma FailedAnswerIsRefuted(c: Crypto, m: Msg, qname: Name, qtype: RType, zone: Name, keys: Option<seq<Key>>,
                              shown: Shown)
    requires AnswerJudged(c, m, qname, qtype, zone, keys, shown, Failed)
    ensures keys.Some?
    ensures AnswerRefuted(c, m.answer, JudgedOwners(shown, qname), JudgedType(shown, qtype), keys.value, zone)
  {
    var owners, t := JudgedOwners(shown, qname), JudgedType(shown, qtype);
    var i :| 0 <= i < |owners| && RRsetState(c, m.answer, owners[i], t, keys.value, zone) == Failed;
    assert owners[i] in owners;
  }

  /** The walk's answer, tied to one authoritative reply in the log and to the last link's keys. */
  ghost predicate AnswerStands(w: World, past: Past, chain: seq<Link>, proofs: seq<Proof>, qname: Name,
                               qtype: RType, shown: Shown, state: AnswerState, at: nat)
  {
    && chain != [] && Answered(past.log, at, qname, qtype, true) && past.log[at].ask.msg.authoritative
    && exists keys :: KeysCurrent(chain, proofs, keys)
         && AnswerJudged(w.crypto, past.log[at].ask.msg, qname, qtype, chain[|chain|-1].zone, keys, shown, state)
  }

  /** One more record of the reply, copied out or passed over. */
  lemma ShowStep(rrs: seq<RR>, i: nat, want: RType)
    requires i < |rrs|
    ensures OfType(rrs[..i + 1], want) == OfType(rrs[..i], want) + if rrs[i].Type() == want then [rrs[i]] else []
    ensures ShownAlias(rrs[..i + 1], want) ==
            if ShownAlias(rrs[..i], want) == None && rrs[i].Type() == TypeCNAME && want != TypeCNAME then Some(rrs[i])
            else ShownAlias(rrs[..i], want)
    ensures Owners(OfType(rrs[..i], want) + [rrs[i]]) ==
            Owners(OfType(rrs[..i], want)) +
            if rrs[i].owner in Owners(OfType(rrs[..i], want)) then [] else [rrs[i].owner]
  {
    assert rrs[..i + 1][..i] == rrs[..i];
    var shown := OfType(rrs[..i], want) + [rrs[i]];
    assert shown[..|shown|-1] == OfType(rrs[..i], want);
  }

  // ----- the verdict -----

  ghost predicate Has(chain: seq<Link>, status: Status) {
    exists i :: 0 <= i < |chain| && chain[i].status == status
  }

  ghost predicate Finished(chain: seq<Link>, shown: Shown, truncated: bool) {
    !truncated && chain != [] && shown.zone.Some?
  }

  /** The verdict's order of precedence: broken, unfinished, unread, unsigned, verified, and otherwise no verdict. */
  ghost predicate VerdictGiven(chain: seq<Link>, shown: Shown, truncated: bool, state: AnswerState, dnssec: Status) {
    && (dnssec == Bogus <==> Has(chain, Bogus) || state == Failed)
    && (dnssec == Insecure <==>
          && !Has(chain, Bogus) && state != Failed && Finished(chain, shown, truncated)
          && !Has(chain, Indeterminate) && Has(chain, Insecure))
    && (dnssec == Secure <==>
          && Finished(chain, shown, truncated) && state == Verified
          && forall i :: 0 <= i < |chain| ==> chain[i].status == Secure)
  }

  method Verdict(chain: seq<Link>, shown: Shown, truncated: bool, state: AnswerState) returns (dnssec: Status)
    ensures VerdictGiven(chain, shown, truncated, state, dnssec)
  {
    var has: set<Status> := {};
    for i := 0 to |chain|
      invariant forall s :: s in has <==> exists j :: 0 <= j < i && chain[j].status == s
    {
      has := has + {chain[i].status};
    }
    assert forall s :: s in has <==> Has(chain, s);
    if Bogus in has {
      dnssec := Bogus;
    } else if state == Failed {
      dnssec := Bogus;
    } else if truncated || |chain| == 0 || shown.zone == None {
      dnssec := Indeterminate;
    } else if Indeterminate in has {
      dnssec := Indeterminate;
    } else if Insecure in has {
      dnssec := Insecure;
    } else if state == Verified {
      dnssec := Secure;
    } else {
      dnssec := Indeterminate;
    }
    if dnssec != Secure && Finished(chain, shown, truncated) && state == Verified {
      var s :| s in {Bogus, Indeterminate, Insecure} && Has(chain, s);
    }
  }

  // ----- what a whole walk guarantees -----

  /** The zone an answer is judged under: the one asked, if the reply names no zone below it on the name's path, and
      otherwise the shallowest it names. */
  ghost predicate OwnerFound(m: Msg, asked: Name, qname: Name, owner: Name) {
    ShallowestNamed(m.answer + m.ns, asked, qname, if owner == asked then None else Some(owner))
  }

  /** Why a walk is over: an answer judged under the zone that owns it, a limit, or a hop it cannot go past. */
  ghost predicate Ended(w: World, past: Past, chain: seq<Link>, proofs: seq<Proof>, qname: Name, qtype: RType,
                        hops: seq<Hop>, shown: Shown, answer: AnswerState, truncated: bool) {
    || (answer == Unset && shown.zone == None && (truncated || (hops != [] && Stopped(hops[|hops|-1]))))
    || (answer != Unset && hops != [] && shown.zone.Some?
        && exists at: nat :: AnswerStands(w, past, chain, proofs, qname, qtype, shown, answer, at)
             && at < |past.log| && past.log[at].ask.Reply?
             && OwnerFound(past.log[at].ask.msg, hops[|hops|-1].zone, qname, shown.zone.value))
  }

  /** The chain of trust behind "secure", from a root anchor down to every record shown. */
  ghost predicate Trusted(w: World, past: Past, out: Trace, proofs: seq<Proof>) {
    && out.chain != [] && |out.chain| == |proofs|
    && (forall i :: 0 <= i < |out.chain| ==>
          out.chain[i].status == Secure && proofs[i].SecureProof? && LinkStands(w, past, out.chain, proofs, i))
    && exists at: nat :: Answered(past.log, at, out.qname, out.qtype, true)
         && AnswerVouched(w.crypto, past.log[at].ask.msg.answer, out.qname, out.qtype, proofs[|proofs|-1].keys,
                          out.chain[|out.chain|-1].zone, out.shown)
  }

  /** The failure behind "bogus": a link refuted by a usable reply under a secure parent, or the zone's own failing
      signature. */
  ghost predicate Refuted(w: World, past: Past, out: Trace, proofs: seq<Proof>) {
    && |out.chain| == |proofs|
    && (|| (exists i :: 0 <= i < |out.chain| && LinkStands(w, past, out.chain, proofs, i)
              && (proofs[i].BogusDsProof? || proofs[i].BogusKeysProof?))
        || (exists at: nat :: Answered(past.log, at, out.qname, out.qtype, true)
              && out.chain != [] && proofs[|proofs|-1].SecureProof?
              && AnswerRefuted(w.crypto, past.log[at].ask.msg.answer, JudgedOwners(out.shown, out.qname),
                               JudgedType(out.shown, out.qtype), proofs[|proofs|-1].keys,
                               out.chain[|out.chain|-1].zone)))
  }

  /** A whole authoritative reply about a zone's DS set that holds no DS record of the zone. */
  ghost predicate SentNoDs(past: Past, zone: Name) {
    exists at: nat :: Answered(past.log, at, zone, TypeDS, false)
      && forall d :: RR(zone, DsData(d)) !in past.log[at].ask.msg.answer + past.log[at].ask.msg.ns
  }

  /** What "insecure" rests on: below secure links only, a zone its parent has no DS for. */
  ghost predicate Unvouched(w: World, past: Past, out: Trace, proofs: seq<Proof>) {
    && |out.chain| == |proofs|
    && exists k :: 0 <= k < |out.chain| && Shaped(out.chain, k)
         && proofs[k].NoDsProof? && LinkStands(w, past, out.chain, proofs, k)
         && (if k == 0 then w.anchors == [] else SentNoDs(past, out.chain[k].zone))
  }

  lemma SecureIsTrusted(w: World, past: Past, out: Trace, proofs: seq<Proof>, state: AnswerState, at: nat)
    requires AllStand(w, past, out.chain, proofs)
    requires VerdictGiven(out.chain, out.shown, out.truncated, state, out.dnssec)
    requires AnswerStands(w, past, out.chain, proofs, out.qname, out.qtype, out.shown, state, at)
    requires out.dnssec == Secure
    ensures Trusted(w, past, out, proofs)
  {
    var m, zone := past.log[at].ask.msg, out.chain[|out.chain|-1].zone;
    var keys :| KeysCurrent(out.chain, proofs, keys)
      && AnswerJudged(w.crypto, m, out.qname, out.qtype, zone, keys, out.shown, state);
    VerifiedAnswerIsVouched(w.crypto, m, out.qname, out.qtype, zone, keys, out.shown);
    forall i | 0 <= i < |out.chain|
      ensures out.chain[i].status == Secure && proofs[i].SecureProof? && LinkStands(w, past, out.chain, proofs, i)
    {
      assert LinkStands(w, past, out.chain, proofs, i);
    }
  }

  lemma BogusIsRefuted(w: World, past: Past, out: Trace, proofs: seq<Proof>, state: AnswerState, at: nat)
    requires AllStand(w, past, out.chain, proofs)
    requires VerdictGiven(out.chain, out.shown, out.truncated, state, out.dnssec)
    requires state == Failed ==> AnswerStands(w, past, out.chain, proofs, out.qname, out.qtype, out.shown, state, at)
    requires out.dnssec == Bogus
    ensures Refuted(w, past, out, proofs)
  {
    if Has(out.chain, Bogus) {
      BogusLinkIsRefuted(w, past, out, proofs);
    } else {
      FailedIsRefuted(w, past, out, proofs, at);
    }
  }

  lemma BogusLinkIsRefuted(w: World, past: Past, out: Trace, proofs: seq<Proof>)
    requires AllStand(w, past, out.chain, proofs) && Has(out.chain, Bogus)
    ensures Refuted(w, past, out, proofs)
  {
    var i :| 0 <= i < |out.chain| && out.chain[i].status == Bogus;
    assert LinkStands(w, past, out.chain, proofs, i);
    assert proofs[i].BogusDsProof? || proofs[i].BogusKeysProof?;
  }

  lemma FailedIsRefuted(w: World, past: Past, out: Trace, proofs: seq<Proof>, at: nat)
    requires |out.chain| == |proofs|
    requires AnswerStands(w, past, out.chain, proofs, out.qname, out.qtype, out.shown, Failed, at)
    ensures Refuted(w, past, out, proofs)
  {
    var m, zone := past.log[at].ask.msg, out.chain[|out.chain|-1].zone;
    var keys :| KeysCurrent(out.chain, proofs, keys)
      && AnswerJudged(w.crypto, m, out.qname, out.qtype, zone, keys, out.shown, Failed);
    FailedAnswerIsRefuted(w.crypto, m, out.qname, out.qtype, zone, keys, out.shown);
  }

  lemma InsecureIsUnvouched(w: World, past: Past, out: Trace, proofs: seq<Proof>, state: AnswerState)
    requires AllStand(w, past, out.chain, proofs)
    requires VerdictGiven(out.chain, out.shown, out.truncated, state, out.dnssec)
    requires out.dnssec == Insecure
    ensures Unvouched(w, past, out, proofs)
  {
    StandingLinksFollow(w, past, out.chain, proofs);
    var k := ChainShape(out.chain);
    var i :| 0 <= i < |out.chain| && out.chain[i].status == Insecure;
    assert out.chain[k].status == Insecure;
    assert LinkStands(w, past, out.chain, proofs, k);
    assert k > 0 ==> proofs[k].NoDsProof?;
    NoDsIsSent(w, past, out.chain, proofs, k);
  }

  lemma NoDsIsSent(w: World, past: Past, chain: seq<Link>, proofs: seq<Proof>, k: nat)
    requires |chain| == |proofs| && k < |chain| && LinkStands(w, past, chain, proofs, k) && proofs[k].NoDsProof?
    ensures if k == 0 then w.anchors == [] else SentNoDs(past, chain[k].zone)
  {
    assert NoDs(w, past, chain, k, chain[k].zone, proofs[k].dsFrom);
    if k > 0 {
      var m := past.log[proofs[k].dsFrom.at].ask.msg;
      assert DsSet(m.answer + m.ns, chain[k].zone) == [];
      forall d ensures RR(chain[k].zone, DsData(d)) !in m.answer + m.ns {
        assert d !in DsSet(m.answer + m.ns, chain[k].zone);
      }
    }
  }

  /** What "indeterminate" rests on: a walk that stopped before an answer, a first unread link under secure ones with
      what asking for it came to, or an answer under secure links that neither verified nor failed. */
  ghost predicate Unsettled(w: World, past: Past, out: Trace, proofs: seq<Proof>) {
    && |out.chain| == |proofs|
    && (|| out.truncated
        || (out.shown.zone == None && out.hops != [] && Stopped(out.hops[|out.hops|-1]))
        || (exists k :: 0 <= k < |out.chain| && Shaped(out.chain, k) && LinkStands(w, past, out.chain, proofs, k)
              && (proofs[k].DsGapProof? || proofs[k].KeysGapProof?))
        || (&& (forall i :: 0 <= i < |out.chain| ==> out.chain[i].status == Secure)
            && exists state, at: nat ::
                 && AnswerStands(w, past, out.chain, proofs, out.qname, out.qtype, out.shown, state, at)
                 && state != Verified && state != Failed))
  }

  lemma IndeterminateIsUnsettled(w: World, past: Past, out: Trace, proofs: seq<Proof>, state: AnswerState)
    requires AllStand(w, past, out.chain, proofs)
    requires VerdictGiven(out.chain, out.shown, out.truncated, state, out.dnssec)
    requires Ended(w, past, out.chain, proofs, out.qname, out.qtype, out.hops, out.shown, state, out.truncated)
    requires out.dnssec == Indeterminate
    ensures Unsettled(w, past, out, proofs)
  {
    hide LinkStands, Shaped, AnswerJudged, Answered, KeysCurrent, Stopped;
    if !out.truncated && state != Unset {
      var at: nat :| AnswerStands(w, past, out.chain, proofs, out.qname, out.qtype, out.shown, state, at);
      AnswerShows(w, past, out.chain, proofs, out.qname, out.qtype, out.shown, state, at);
      if Has(out.chain, Indeterminate) {
        FirstGap(w, past, out, proofs);
      }
    }
  }

  lemma AnswerShows(w: World, past: Past, chain: seq<Link>, proofs: seq<Proof>, qname: Name, qtype: RType, shown: Shown,
                    state: AnswerState, at: nat)
    requires AnswerStands(w, past, chain, proofs, qname, qtype, shown, state, at)
    ensures shown.zone.Some? && chain != []
  {
  }

  lemma FirstGap(w: World, past: Past, out: Trace, proofs: seq<Proof>)
    requires AllStand(w, past, out.chain, proofs) && Has(out.chain, Indeterminate)
    ensures Unsettled(w, past, out, proofs)
  {
    StandingLinksFollow(w, past, out.chain, proofs);
    var k := ChainShape(out.chain);
    var i :| 0 <= i < |out.chain| && out.chain[i].status == Indeterminate;
    assert out.chain[k].status == Indeterminate;
    assert LinkStands(w, past, out.chain, proofs, k);
    assert proofs[k].DsGapProof? || proofs[k].KeysGapProof?;
  }

  /** The record lies in an RRset of the reply that the zone's keys signed in date. */
  ghost predicate LiesSigned(c: Crypto, rrs: seq<RR>, rr: RR, keys: seq<Key>, zone: Name) {
    exists owner, t :: rr in RRset(rrs, owner, t) && RRsetVouched(c, rrs, owner, t, keys, zone)
  }

  /** Of an answer verified by its alias alone, the alias shown lies in a signed RRset exactly when qname owns the first
      alias of the reply, or the zone's keys happen to have signed the alias set of its other owner too. The walk never
      makes that second check, so the part a caller can tell from the reply is that qname owns the first alias. */
  lemma ShownAliasSignedIff(c: Crypto, m: Msg, qname: Name, qtype: RType, zone: Name, keys: seq<Key>, shown: Shown)
    requires AnswerJudged(c, m, qname, qtype, zone, Some(keys), shown, Verified) && shown.records == []
    ensures shown.cname.Some? && OfType(m.answer, TypeCNAME) != []
    ensures
      LiesSigned(c, m.answer, shown.cname.value, keys, zone) <==>
      var first := OfType(m.answer, TypeCNAME)[0];
      first.owner == qname || RRsetVouched(c, m.answer, first.owner, TypeCNAME, keys, zone)
  {
    VerifiedAnswerIsVouched(c, m, qname, qtype, zone, Some(keys), shown);
    var first := OfType(m.answer, TypeCNAME)[0];
    assert first in OfType(m.answer, TypeCNAME);
    assert shown.cname == Some(first) && first in RRset(m.answer, first.owner, TypeCNAME);
    assert RRsetVouched(c, m.answer, qname, TypeCNAME, keys, zone);
  }

  function ForeignReply(sig: Sig, qname: Name, other: Name, t: Name, u: Name): seq<RR> {
    [RR(other, Alias(t)), RR(qname, Alias(u)), RR(qname, SigData(sig))]
  }

  /** A reply that puts another name's alias first: the answer is called verified, and the alias shown lies in no RRset
      that anything signed. */
  lemma ForeignAliasShown(c: Crypto, sig: Sig, k: Key, qname: Name, other: Name, t: Name, u: Name, zone: Name)
    requires other != qname && sig.covers == TypeCNAME && sig.signer == zone
    requires SigValid(c, sig, k, [RR(qname, Alias(u))])
    ensures var rrs := ForeignReply(sig, qname, other, t, u);
      var shown := Shown(Some(zone), NoError, [], Some(rrs[0]), true, true);
      && AnswerJudged(c, Msg(true, false, NoError, rrs, [], []), qname, TypeA, zone, Some([k]), shown, Verified)
      && !LiesSigned(c, rrs, rrs[0], [k], zone)
  {
    var rrs := ForeignReply(sig, qname, other, t, u);
    var shown := Shown(Some(zone), NoError, [], Some(rrs[0]), true, true);
    ForeignReplySigned(c, sig, k, qname, other, t, u, zone);
    ForeignReplyShows(sig, qname, other, t, u);
    ForeignAliasUnsigned(c, sig, k, qname, other, t, u, zone);
    hide RRset, Sigs, RRsetVouched, OfType, ShownAlias, LiesSigned;
    assert JudgedOwners(shown, qname) == [qname];
    assert RRsetState(c, rrs, qname, TypeCNAME, [k], zone) == Verified;
  }

  lemma ForeignReplySigned(c: Crypto, sig: Sig, k: Key, qname: Name, other: Name, t: Name, u: Name, zone: Name)
    requires other != qname && sig.covers == TypeCNAME && sig.signer == zone
    requires SigValid(c, sig, k, [RR(qname, Alias(u))])
    ensures var rrs := ForeignReply(sig, qname, other, t, u);
      && RRset(rrs, qname, TypeCNAME) != [] && Sigs(rrs, qname, TypeCNAME) != []
      && RRsetVouched(c, rrs, qname, TypeCNAME, [k], zone)
  {
    var rrs := ForeignReply(sig, qname, other, t, u);
    assert rrs[1..][1..] == [RR(qname, SigData(sig))];
    assert RRset(rrs[1..][1..], qname, TypeCNAME) == [];
    assert RRset(rrs[1..], qname, TypeCNAME) == [RR(qname, Alias(u))];
    assert RRset(rrs, qname, TypeCNAME) == [RR(qname, Alias(u))];
    assert RR(qname, SigData(sig)) in rrs by { assert rrs[2] == RR(qname, SigData(sig)); }
    assert sig in Sigs(rrs, qname, TypeCNAME) && k in [k];
  }

  lemma ForeignReplyShows(sig: Sig, qname: Name, other: Name, t: Name, u: Name)
    ensures var rrs := ForeignReply(sig, qname, other, t, u);
      OfType(rrs, TypeA) == [] && ShownAlias(rrs, TypeA) == Some(rrs[0])
  {
    var a, b, s := RR(other, Alias(t)), RR(qname, Alias(u)), RR(qname, SigData(sig));
    OfTypeOfThree(a, b, s, TypeA);
    OfTypeOfThree(a, b, s, TypeCNAME);
    hide OfType;
  }

  lemma OfTypeOfThree(a: RR, b: RR, c: RR, t: RType)
    requires a.Type() == b.Type() && c.Type() != t
    ensures OfType([a, b, c], t) == if a.Type() == t then [a, b] else []
  {
    var one, two, three := [a], [a, b], [a, b, c];
    assert one[..0] == [] && two[..1] == one && three[..2] == two;
    var x, y := OfType(one, t), OfType(two, t);
    assert OfType(one[..0], t) == [] && one[0] == a;
    assert x == if a.Type() == t then [a] else [];
    assert y == if b.Type() == t then x + [b] else x;
    assert OfType(three, t) == y;
    hide OfType;
  }

  lemma ForeignAliasUnsigned(c: Crypto, sig: Sig, k: Key, qname: Name, other: Name, t: Name, u: Name, zone: Name)
    requires other != qname
    ensures var rrs := ForeignReply(sig, qname, other, t, u); !LiesSigned(c, rrs, rrs[0], [k], zone)
  {
    var rrs := ForeignReply(sig, qname, other, t, u);
    hide RRset, Sigs;
    forall s ensures s !in Sigs(rrs, other, TypeCNAME) {
      assert RR(other, SigData(s)) !in rrs;
    }
  }
}
