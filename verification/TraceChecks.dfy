/** The walk's judgements that only read their arguments: one link's keys, one RRset, one referral. */
module TraceChecks {
  import opened Basics
  import opened DnsRecords

  /** Section 4.3 of RFC 4035. */
  datatype Status = Secure | Insecure | Bogus | Indeterminate

  /** What the walk may say about the records it shows. */
  datatype AnswerState = Unset | Verified | NoAnswer | Unchecked | Unsigned | ForeignSigner | Failed

  // ----- one link of the chain: sections 5.2 and 5.3 of RFC 4035 -----

  /** The parent's DS names this key: tag and algorithm pre-filter, the digest decides. */
  predicate Matches(c: Crypto, d: Ds, k: Key) {
    c.keyTag(k) == d.keyTag && k.algorithm == d.algorithm && c.digest(k, d.digestType) == Some(d.digest)
  }

  /** The (i, j, l)-th combination reaches the validity-period test. */
  ghost predicate Attempt(c: Crypto, ds: seq<Ds>, keys: seq<Key>, rrset: seq<RR>, sigs: seq<Sig>,
                          i: int, j: int, l: int) {
    && 0 <= i < |ds| && 0 <= j < |keys| && 0 <= l < |sigs|
    && Matches(c, ds[i], keys[j])
    && sigs[l].keyTag == c.keyTag(keys[j])
    && c.verify(sigs[l], keys[j], rrset)
  }

  ghost predicate NotAfter(i: int, j: int, l: int, i': int, j': int, l': int) {
    i < i' || (i == i' && (j < j' || (j == j' && l <= l')))
  }

  ghost predicate FirstAttempt(c: Crypto, ds: seq<Ds>, keys: seq<Key>, rrset: seq<RR>, sigs: seq<Sig>,
                               i: int, j: int, l: int) {
    && Attempt(c, ds, keys, rrset, sigs, i, j, l)
    && forall i', j', l' :: Attempt(c, ds, keys, rrset, sigs, i', j', l') ==> NotAfter(i, j, l, i', j', l')
  }

  ghost predicate SomeDigestMatches(c: Crypto, ds: seq<Ds>, keys: seq<Key>) {
    exists d, k :: d in ds && k in keys && Matches(c, d, k)
  }

  /** What one link comes to: the first verifying signature decides, and its date decides which way. */
  ghost predicate KeysVerdict(c: Crypto, ds: seq<Ds>, keys: seq<Key>, rrset: seq<RR>, sigs: seq<Sig>,
                              matched: Option<Key>, status: Status) {
    if exists i, j, l :: Attempt(c, ds, keys, rrset, sigs, i, j, l) then
      exists i, j, l ::
        && FirstAttempt(c, ds, keys, rrset, sigs, i, j, l)
        && matched == Some(keys[j])
        && status == if c.inDate(sigs[l]) then Secure else Bogus
    else
      && matched == None
      && status == if SomeDigestMatches(c, ds, keys) && sigs == [] then Indeterminate else Bogus
  }

  /** Some key the DS set names made an in-date signature over the key set. */
  ghost predicate KeysVouched(c: Crypto, ds: seq<Ds>, keys: seq<Key>, rrset: seq<RR>, sigs: seq<Sig>) {
    exists d, k, sig :: d in ds && k in keys && sig in sigs && Matches(c, d, k)
      && sig.keyTag == c.keyTag(k) && c.verify(sig, k, rrset) && c.inDate(sig)
  }

  method CheckKeys(c: Crypto, ds: seq<Ds>, keys: seq<Key>, rrset: seq<RR>, sigs: seq<Sig>)
    returns (matched: Option<Key>, status: Status)
    ensures KeysVerdict(c, ds, keys, rrset, sigs, matched, status)
    ensures status != Insecure
  {
    var digestMatched := false;
    for i := 0 to |ds|
      invariant forall i', j', l' :: Attempt(c, ds, keys, rrset, sigs, i', j', l') ==> i <= i'
      invariant digestMatched <==> exists i', j' :: 0 <= i' < i && 0 <= j' < |keys| && Matches(c, ds[i'], keys[j'])
    {
      for j := 0 to |keys|
        invariant forall i', j', l' :: Attempt(c, ds, keys, rrset, sigs, i', j', l') ==> i < i' || (i == i' && j <= j')
        invariant digestMatched <==> exists i', j' ::
          0 <= i' <= i && 0 <= j' < |keys| && (i' < i || j' < j) && Matches(c, ds[i'], keys[j'])
      {
        var d, k := ds[i], keys[j];
        if c.keyTag(k) != d.keyTag || k.algorithm != d.algorithm {
          continue;
        }
        var cand := c.digest(k, d.digestType);
        if cand != Some(d.digest) {
          continue;
        }
        assert Matches(c, ds[i], keys[j]);
        digestMatched := true;
        for l := 0 to |sigs|
          invariant forall i', j', l' :: Attempt(c, ds, keys, rrset, sigs, i', j', l') ==> NotAfter(i, j, l, i', j', l')
        {
          if sigs[l].keyTag != c.keyTag(k) || !c.verify(sigs[l], k, rrset) {
            continue;
          }
          assert FirstAttempt(c, ds, keys, rrset, sigs, i, j, l);
          return Some(k), if !c.inDate(sigs[l]) then Bogus else Secure;
        }
      }
    }
    assert digestMatched <==> SomeDigestMatches(c, ds, keys);
    if digestMatched && |sigs| == 0 {
      return None, Indeterminate;
    }
    return None, Bogus;
  }

  /** "Secure" is only ever said of a key set that a DS-named key signed in date. */
  lemma SecureKeysAreVouched(c: Crypto, ds: seq<Ds>, keys: seq<Key>, rrset: seq<RR>, sigs: seq<Sig>,
                             matched: Option<Key>)
    requires KeysVerdict(c, ds, keys, rrset, sigs, matched, Secure)
    ensures KeysVouched(c, ds, keys, rrset, sigs)
  {
    var i, j, l :| FirstAttempt(c, ds, keys, rrset, sigs, i, j, l) && c.inDate(sigs[l]);
    assert ds[i] in ds && keys[j] in keys && sigs[l] in sigs;
  }

  /** A vouched key set is called secure exactly when the first signature that verifies is in date. */
  lemma VouchedKeysSecureIff(c: Crypto, ds: seq<Ds>, keys: seq<Key>, rrset: seq<RR>, sigs: seq<Sig>,
                             matched: Option<Key>, status: Status)
    requires KeysVouched(c, ds, keys, rrset, sigs)
    requires KeysVerdict(c, ds, keys, rrset, sigs, matched, status)
    ensures status == Secure <==>
            exists i, j, l :: FirstAttempt(c, ds, keys, rrset, sigs, i, j, l) && c.inDate(sigs[l])
    ensures status == Secure || status == Bogus
  {
    var d, k, sig :| d in ds && k in keys && sig in sigs && Matches(c, d, k)
      && sig.keyTag == c.keyTag(k) && c.verify(sig, k, rrset) && c.inDate(sig);
    var i, j, l :| 0 <= i < |ds| && 0 <= j < |keys| && 0 <= l < |sigs| && ds[i] == d && keys[j] == k && sigs[l] == sig;
    assert Attempt(c, ds, keys, rrset, sigs, i, j, l);
  }

  /** An expired signature ahead of a good one makes a vouched key set bogus. */
  lemma ExpiredSignatureFirstIsBogus(d: Ds, k: Key, stale: Sig, good: Sig, c: Crypto, rrset: seq<RR>)
    requires Matches(c, d, k) && SigValid(c, good, k, rrset)
    requires stale.keyTag == c.keyTag(k) && c.verify(stale, k, rrset) && !c.inDate(stale)
    ensures KeysVouched(c, [d], [k], rrset, [stale, good])
    ensures forall matched, status ::
      KeysVerdict(c, [d], [k], rrset, [stale, good], matched, status) ==> status == Bogus
  {
    assert d in [d] && k in [k] && good in [stale, good];
    var sigs := [stale, good];
    assert Attempt(c, [d], [k], rrset, sigs, 0, 0, 0);
    forall matched, status | KeysVerdict(c, [d], [k], rrset, sigs, matched, status)
      ensures status == Bogus
    {
      var i, j, l :| FirstAttempt(c, [d], [k], rrset, sigs, i, j, l)
        && status == if c.inDate(sigs[l]) then Secure else Bogus;
      assert NotAfter(i, j, l, 0, 0, 0);
    }
  }

  // ----- one RRset of the answer -----

  /** An in-date signature by one of the zone's keys covers the owner's records of this type. */
  ghost predicate RRsetVouched(c: Crypto, rrs: seq<RR>, owner: Name, t: RType, keys: seq<Key>, zone: Name) {
    exists sig, k :: sig in Sigs(rrs, owner, t) && k in keys
      && sig.signer == zone && sig.keyTag == c.keyTag(k) && c.verify(sig, k, RRset(rrs, owner, t)) && c.inDate(sig)
  }

  ghost function RRsetState(c: Crypto, rrs: seq<RR>, owner: Name, t: RType, keys: seq<Key>, zone: Name): AnswerState {
    if RRset(rrs, owner, t) == [] then Unchecked
    else if Sigs(rrs, owner, t) == [] then Unsigned
    else if RRsetVouched(c, rrs, owner, t, keys, zone) then Verified
    else if exists sig :: sig in Sigs(rrs, owner, t) && sig.signer == zone then Failed
    else ForeignSigner
  }

  method VerifyRRset(c: Crypto, rrs: seq<RR>, owner: Name, t: RType, keys: seq<Key>, zone: Name)
    returns (state: AnswerState)
    ensures state == RRsetState(c, rrs, owner, t, keys, zone)
  {
    hide RRset, Sigs;
    var rrset, sigs := RRset(rrs, owner, t), Sigs(rrs, owner, t);
    if |rrset| == 0 {
      return Unchecked;
    }
    if |sigs| == 0 {
      return Unsigned;
    }
    state := ForeignSigner;
    for i := 0 to |sigs|
      invariant state == ForeignSigner || state == Failed
      invariant state == Failed <==> exists i' :: 0 <= i' < i && sigs[i'].signer == zone
      invariant forall i', k :: 0 <= i' < i && k in keys && sigs[i'].signer == zone ==> !SigValid(c, sigs[i'], k, rrset)
    {
      if sigs[i].signer != zone {
        continue;
      }
      state := Failed;
      for j := 0 to |keys|
        invariant forall j' :: 0 <= j' < j ==> !SigValid(c, sigs[i], keys[j'], rrset)
      {
        if SigValid(c, sigs[i], keys[j], rrset) {
          assert sigs[i] in sigs && keys[j] in keys;
          return Verified;
        }
      }
    }
    assert forall s :: s in sigs ==> exists i' :: 0 <= i' < |sigs| && sigs[i'] == s;
  }

  // ----- where the walk goes next -----

  /** A signature's signer, or the owner of an SOA record, is a name strictly below zone and on the way to qname. */
  ghost predicate NamedBelow(rrs: seq<RR>, zone: Name, qname: Name, n: Name) {
    && zone < n <= qname
    && ((exists owner, sig :: RR(owner, SigData(sig)) in rrs && sig.signer == n) || RR(n, StartOfAuthority) in rrs)
  }

  /** The shallowest such name, if there is any. */
  ghost predicate ShallowestNamed(rrs: seq<RR>, zone: Name, qname: Name, best: Option<Name>) {
    && (best.Some? ==> NamedBelow(rrs, zone, qname, best.value))
    && (forall n :: NamedBelow(rrs, zone, qname, n) ==> best.Some? && best.value <= n)
  }

  /** The shallowest zone below this one that the reply says owns the answer. */
  method AnswerZone(resp: Msg, qname: Name, zone: Name) returns (best: Option<Name>)
    ensures best.Some? ==> zone < best.value <= qname
    ensures ShallowestNamed(resp.answer + resp.ns, zone, qname, best)
  {
    var rrs := resp.answer + resp.ns;
    best := None;
    for i := 0 to |rrs|
      invariant best.Some? ==> NamedBelow(rrs[..i], zone, qname, best.value)
      invariant forall n :: NamedBelow(rrs[..i], zone, qname, n) ==> best.Some? && |best.value| <= |n|
    {
      OneMoreNamed(rrs, i, zone, qname);
      hide NamedBelow;
      var claim: Option<Name>;
      match rrs[i].data {
        case SigData(sig) => claim := Some(sig.signer);
        case StartOfAuthority => claim := Some(rrs[i].owner);
        case _ => claim := None;
      }
      if claim.Some? && claim.value != zone && IsSubDomain(zone, claim.value) && IsSubDomain(claim.value, qname) {
        if best.None? || |claim.value| < |best.value| {
          best := claim;
        }
      }
    }
    assert rrs[..|rrs|] == rrs;
  }

  lemma OneMoreNamed(rrs: seq<RR>, i: nat, zone: Name, qname: Name)
    requires i < |rrs|
    ensures forall n :: NamedBelow(rrs[..i + 1], zone, qname, n) <==>
              || NamedBelow(rrs[..i], zone, qname, n)
              || (zone < n <= qname && rrs[i].data.SigData? && rrs[i].data.sig.signer == n)
              || (zone < n <= qname && rrs[i].data.StartOfAuthority? && rrs[i].owner == n)
  {
    assert rrs[..i + 1] == rrs[..i] + [rrs[i]];
    assert forall rr :: rr in rrs[..i + 1] <==> rr in rrs[..i] || rr == rrs[i];
    var last := rrs[i];
    forall n
      ensures NamedBelow(rrs[..i + 1], zone, qname, n) <==>
              || NamedBelow(rrs[..i], zone, qname, n)
              || (zone < n <= qname && last.data.SigData? && last.data.sig.signer == n)
              || (zone < n <= qname && last.data.StartOfAuthority? && last.owner == n)
    {
      if last.data.SigData? {
        assert last == RR(last.owner, SigData(last.data.sig));
      }
      if owner, sig :| RR(owner, SigData(sig)) in rrs[..i + 1] && sig.signer == n {
        assert RR(owner, SigData(sig)) in rrs[..i] || RR(owner, SigData(sig)) == last;
      }
      if owner, sig :| RR(owner, SigData(sig)) in rrs[..i] && sig.signer == n {
        assert RR(owner, SigData(sig)) in rrs[..i + 1];
      }
    }
  }

  /** Of two nested zones that a reply names, the shallower is taken, and the other lies strictly below it. */
  lemma NestedNames(rrs: seq<RR>, zone: Name, qname: Name, near: Name, far: Name, best: Option<Name>)
    requires NamedBelow(rrs, zone, qname, near) && NamedBelow(rrs, zone, qname, far) && near < far
    requires ShallowestNamed(rrs, zone, qname, best)
    ensures best.Some? && best.value < far && NamedBelow(rrs, best.value, qname, far)
  {
  }

  /** The hosts of the NS records one owner has, in message order. */
  function NsHosts(rrs: seq<RR>, owner: Name): (r: seq<Name>)
    ensures forall h :: h in r <==> RR(owner, NameServer(h)) in rrs
  {
    if rrs == [] then []
    else
      var rest := NsHosts(rrs[1..], owner);
      if rrs[0].data.NameServer? && rrs[0].owner == owner then [rrs[0].data.host] + rest else rest
  }

  lemma NsHostsSnoc(rrs: seq<RR>, rr: RR, owner: Name)
    ensures NsHosts(rrs + [rr], owner) ==
            NsHosts(rrs, owner) + if rr.data.NameServer? && rr.owner == owner then [rr.data.host] else []
  {
    if rrs != [] {
      assert (rrs + [rr])[1..] == rrs[1..] + [rr];
      NsHostsSnoc(rrs[1..], rr, owner);
    }
  }

  ghost predicate FirstNs(rrs: seq<RR>, i: int) {
    0 <= i < |rrs| && rrs[i].data.NameServer? && forall j :: 0 <= j < i ==> !rrs[j].data.NameServer?
  }

  /** The first NS record's owner is the child, if it lies on the path; its hosts are that owner's. */
  ghost predicate ReferralRead(rrs: seq<RR>, zone: Name, qname: Name, child: Option<Name>, hosts: seq<Name>) {
    || (child == None && hosts == [] && forall i :: FirstNs(rrs, i) ==> !(zone < rrs[i].owner <= qname))
    || (child.Some? && hosts == NsHosts(rrs, child.value) && exists i :: FirstNs(rrs, i) && rrs[i].owner == child.value)
  }

  /** The child a referral delegates to, and its nameservers before they are sorted. */
  method Referral(resp: Msg, zone: Name, qname: Name) returns (child: Option<Name>, hosts: seq<Name>)
    ensures child.Some? ==> zone < child.value <= qname
    ensures ReferralRead(resp.ns, zone, qname, child, hosts)
  {
    child, hosts := None, [];
    ghost var first := -1;
    for i := 0 to |resp.ns|
      invariant child.None? ==> hosts == [] && forall j :: 0 <= j < i ==> !resp.ns[j].data.NameServer?
      invariant child.Some? ==>
        && 0 <= first < i && resp.ns[first].data.NameServer? && resp.ns[first].owner == child.value
        && (forall j :: 0 <= j < first ==> !resp.ns[j].data.NameServer?)
        && hosts == NsHosts(resp.ns[..i], child.value)
    {
      assert resp.ns[..i + 1] == resp.ns[..i] + [resp.ns[i]];
      if child.Some? {
        NsHostsSnoc(resp.ns[..i], resp.ns[i], child.value);
      }
      if !resp.ns[i].data.NameServer? {
        continue;
      }
      var owner := resp.ns[i].owner;
      if child.None? {
        child := Some(owner);
        first := i;
        NoNsHosts(resp.ns[..i], owner);
        NsHostsSnoc(resp.ns[..i], resp.ns[i], owner);
      }
      if owner == child.value {
        hosts := hosts + [resp.ns[i].data.host];
      }
    }
    assert resp.ns[..|resp.ns|] == resp.ns;
    assert child.Some? ==> FirstNs(resp.ns, first);
    if child.None? || child.value == zone || !IsSubDomain(zone, child.value) || !IsSubDomain(child.value, qname) {
      child, hosts := None, [];
    }
  }

  lemma NoNsHosts(rrs: seq<RR>, owner: Name)
    requires forall rr :: rr in rrs ==> !rr.data.NameServer?
    ensures NsHosts(rrs, owner) == []
  {
  }
}
