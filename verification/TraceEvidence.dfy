/** What a walk records, and the replies that back each link of its chain. */
module TraceEvidence {
  import opened Basics
  import opened DnsRecords
  import opened TraceChecks
  import opened TraceRounds

  /** The parent's word on a child: a DS set to match (empty: unsigned), or a verdict already. */
  datatype ParentWord = ParentWord(ds: seq<Ds>, status: Option<Status>)

  datatype Link = Link(zone: Name, parent: Option<Name>, status: Status, dsKeyTags: seq<nat>, keyTags: seq<nat>,
                       matchedTag: Option<nat>, keysWithoutDs: bool)

  datatype Hop = Hop(zone: Name, server: Option<Server>, rcode: Option<Rcode>, authoritative: bool,
                     nameservers: multiset<Name>, glue: multiset<Ip>, referral: Option<Name>, zoneCut: Option<Name>,
                     glueMissing: bool, sideLookups: seq<Name>, failed: bool)

  /** A hop the walk cannot go past: nobody answered, nobody was left to ask, or the reply led nowhere. */
  predicate Stopped(hop: Hop) { hop.failed || (!hop.authoritative && hop.referral == None) }

  /** What the page shows of an authoritative answer. */
  datatype Shown = Shown(zone: Option<Name>, rcode: Rcode, records: seq<RR>, cname: Option<RR>, signed: bool,
                         verified: bool)

  datatype Trace = Trace(qname: Name, qtype: RType, hops: seq<Hop>, chain: seq<Link>, shown: Shown,
                         dnssec: Status, truncated: bool, queries: nat, readings: nat)

  /** Where a judgement comes from: nothing asked, a reply in the log, or a stretch of the log that brought none. */
  datatype Source = Nothing | At(at: nat) | Unheard(turns: seq<Server>, from: nat, to: nat)

  /** What a question to a zone's servers came to, and where in the log that stands. */
  ghost predicate Learnt(w: World, past: Past, name: Name, t: RType, r: Option<Msg>, src: Source) {
    || (r.Some? && src.At? && Answered(past.log, src.at, name, t, false) && past.log[src.at].ask == Reply(r.value))
    || (r.None? && src.Unheard? && Silent(w, past, name, t, src.turns, src.from, src.to))
  }

  function Sections(m: Msg): seq<RR> { m.answer + m.ns }

  /** The child's DS set, signed in date by one of the keys above. */
  ghost predicate DsVouched(c: Crypto, m: Msg, child: Name, keys: seq<Key>, ds: seq<Ds>) {
    var rrs := Sections(m);
    && ds == DsSet(rrs, child) && ds != []
    && exists sig, k :: sig in Sigs(rrs, child, TypeDS) && k in keys
         && sig.keyTag == c.keyTag(k) && c.verify(sig, k, RRset(rrs, child, TypeDS)) && c.inDate(sig)
  }

  /** The parent's reply holds no DS for the child. */
  ghost predicate DsAbsent(m: Msg, child: Name) {
    DsSet(Sections(m), child) == []
  }

  /** The parent's reply holds a signed DS set, and no signature over it is in date by a key above. */
  ghost predicate DsRefuted(c: Crypto, m: Msg, child: Name, keys: seq<Key>) {
    var rrs := Sections(m);
    && DsSet(rrs, child) != [] && Sigs(rrs, child, TypeDS) != []
    && forall sig, k :: sig in Sigs(rrs, child, TypeDS) && k in keys ==>
         !(sig.keyTag == c.keyTag(k) && c.verify(sig, k, RRset(rrs, child, TypeDS)) && c.inDate(sig))
  }

  /** The parent's reply holds a DS set with no signature over it at all. */
  ghost predicate DsUnsigned(m: Msg, child: Name) {
    DsSet(Sections(m), child) != [] && Sigs(Sections(m), child, TypeDS) == []
  }

  /** The keys the walk looks at. */
  function FirstKeys(rrset: seq<RR>): (r: seq<Key>)
    ensures |r| <= 24 && (|rrset| <= 24 ==> r == Keys(rrset))
  {
    assert rrset[..|rrset|] == rrset;
    Keys(rrset[..if |rrset| < MAX_KEYS then |rrset| else MAX_KEYS])
  }

  /** The zone's key set, signed in date by a key whose digest is in its DS set. */
  ghost predicate KeysProven(c: Crypto, m: Msg, zone: Name, ds: seq<Ds>, keys: seq<Key>) {
    var rrset := RRset(m.answer, zone, TypeDNSKEY);
    keys == FirstKeys(rrset) && KeysVouched(c, ds, keys, rrset, Sigs(m.answer, zone, TypeDNSKEY))
  }

  /** A whole key reply that fails: no keys at all, or none that the first-signature rule accepts. */
  ghost predicate KeysRefuted(c: Crypto, m: Msg, zone: Name, ds: seq<Ds>) {
    var rrset := RRset(m.answer, zone, TypeDNSKEY);
    FirstKeys(rrset) == [] ||
    exists matched :: KeysVerdict(c, ds, FirstKeys(rrset), rrset, Sigs(m.answer, zone, TypeDNSKEY), matched, Bogus)
  }

  /** A key set that a DS record names a key of, with no signature over it at all. */
  ghost predicate KeysUnsigned(c: Crypto, m: Msg, zone: Name, ds: seq<Ds>) {
    && SomeDigestMatches(c, ds, FirstKeys(RRset(m.answer, zone, TypeDNSKEY)))
    && Sigs(m.answer, zone, TypeDNSKEY) == []
  }

  /** The parent's reply about a child, read under the keys above. */
  ghost predicate DsJudged(c: Crypto, m: Msg, child: Name, keys: seq<Key>, word: ParentWord) {
    || (word.status == None && word.ds == [] && DsAbsent(m, child))
    || (word.status == None && DsVouched(c, m, child, keys, word.ds))
    || (word == ParentWord(DsSet(Sections(m), child), Some(Indeterminate)) && DsUnsigned(m, child))
    || (word == ParentWord(DsSet(Sections(m), child), Some(Bogus)) && DsRefuted(c, m, child, keys))
  }

  method JudgeDs(c: Crypto, m: Msg, child: Name, keys: seq<Key>) returns (word: ParentWord)
    ensures DsJudged(c, m, child, keys, word)
  {
    var sections := m.answer + m.ns;
    var ds := DsSet(sections, child);
    if |ds| == 0 {
      return ParentWord([], None);
    }
    var sigs := Sigs(sections, child, TypeDS);
    if |sigs| == 0 {
      return ParentWord(ds, Some(Indeterminate));
    }
    var rrset := RRset(sections, child, TypeDS);
    for i := 0 to |sigs|
      invariant forall i', k :: 0 <= i' < i && k in keys ==> !SigValid(c, sigs[i'], k, rrset)
    {
      for j := 0 to |keys|
        invariant forall j' :: 0 <= j' < j ==> !SigValid(c, sigs[i], keys[j'], rrset)
      {
        if SigValid(c, sigs[i], keys[j], rrset) {
          assert sigs[i] in sigs && keys[j] in keys;
          return ParentWord(ds, None);
        }
      }
    }
    return ParentWord(ds, Some(Bogus));
  }

  /** A zone's key reply, read under a DS set the parent's word left open. */
  ghost predicate KeysJudged(c: Crypto, r: Option<Msg>, zone: Name, ds: seq<Ds>, status: Status,
                             keys: Option<seq<Key>>) {
    || (ds == [] && status == Insecure && keys == None)
    || (ds != [] && r == None && status == Indeterminate && keys == None)
    || (ds != [] && r.Some? && status == Secure && keys.Some? && KeysProven(c, r.value, zone, ds, keys.value))
    || (ds != [] && r.Some? && status == Bogus && keys == None && KeysRefuted(c, r.value, zone, ds))
    || (ds != [] && r.Some? && status == Indeterminate && keys == None && KeysUnsigned(c, r.value, zone, ds))
  }

  function KeyTags(c: Crypto, keys: seq<Key>): (r: seq<nat>)
    ensures |r| == |keys| && forall i :: 0 <= i < |r| ==> r[i] == c.keyTag(keys[i])
  {
    if keys == [] then [] else [c.keyTag(keys[0])] + KeyTags(c, keys[1..])
  }

  function DsTags(ds: seq<Ds>): (r: seq<nat>)
    ensures |r| == |ds| && forall i :: 0 <= i < |r| ==> r[i] == ds[i].keyTag
  {
    if ds == [] then [] else [ds[0].keyTag] + DsTags(ds[1..])
  }

  function KeySet(r: Option<Msg>, zone: Name): seq<RR> {
    if r.Some? then RRset(r.value.answer, zone, TypeDNSKEY) else []
  }

  /** The key whose signature made a key set secure: the one the first signature that verifies is by. */
  ghost predicate MatchedBy(c: Crypto, r: Option<Msg>, zone: Name, ds: seq<Ds>, tag: Option<nat>) {
    exists k :: r.Some? && tag == Some(c.keyTag(k))
      && KeysVerdict(c, ds, FirstKeys(KeySet(r, zone)), KeySet(r, zone), Sigs(r.value.answer, zone, TypeDNSKEY),
                     Some(k), Secure)
  }

  /** What a link shows of its zone's keys. */
  ghost predicate LinkFilled(c: Crypto, r: Option<Msg>, ds: seq<Ds>, link: Link) {
    var found := FirstKeys(KeySet(r, link.zone));
    && link.dsKeyTags == DsTags(ds) && link.keyTags == KeyTags(c, found)
    && (link.keysWithoutDs <==> ds == [] && found != [])
    && (if link.status == Secure then MatchedBy(c, r, link.zone, ds, link.matchedTag) else link.matchedTag == None)
  }

  method JudgeKeys(c: Crypto, zone: Name, parent: Option<Name>, r: Option<Msg>, ds: seq<Ds>)
    returns (link: Link, keys: Option<seq<Key>>)
    ensures link.zone == zone && link.parent == parent
    ensures KeysJudged(c, r, zone, ds, link.status, keys)
    ensures LinkFilled(c, r, ds, link)
  {
    hide KeysVerdict, KeysVouched, KeyTags, DsTags;
    var rrset := KeySet(r, zone);
    var found := FirstKeys(rrset);
    link, keys := Link(zone, parent, Indeterminate, DsTags(ds), KeyTags(c, found), None, false), None;
    if |ds| == 0 {
      link := link.(status := Insecure, keysWithoutDs := |found| > 0);
    } else if r.None? {
      return;
    } else if |found| == 0 {
      link := link.(status := Bogus);
    } else {
      var sigs := Sigs(r.value.answer, zone, TypeDNSKEY);
      var matched, status := CheckKeys(c, ds, found, rrset, sigs);
      link := link.(status := status);
      GapIsUnsigned(c, ds, found, rrset, sigs, matched, status);
      if status == Secure {
        SecureKeysAreVouched(c, ds, found, rrset, sigs, matched);
        link := link.(matchedTag := Some(c.keyTag(matched.value)));
        keys := Some(found);
      }
    }
  }

  /** A key set is a gap only when unsigned, and secure only by some key. */
  lemma GapIsUnsigned(c: Crypto, ds: seq<Ds>, keys: seq<Key>, rrset: seq<RR>, sigs: seq<Sig>, matched: Option<Key>,
                      status: Status)
    requires KeysVerdict(c, ds, keys, rrset, sigs, matched, status)
    ensures status == Indeterminate ==> SomeDigestMatches(c, ds, keys) && sigs == []
    ensures status == Secure ==> matched.Some?
  {
  }

  /** Why a link has its status; the root's DS set comes from no reply. */
  datatype Proof =
    | SecureProof(ds: seq<Ds>, dsFrom: Source, keys: seq<Key>, keysFrom: Source)
    | NoDsProof(dsFrom: Source)
    | BogusDsProof(dsFrom: Source)
    | BogusKeysProof(ds: seq<Ds>, dsFrom: Source, keysFrom: Source)
    | DsGapProof(dsFrom: Source)
    | KeysGapProof(ds: seq<Ds>, dsFrom: Source, keysFrom: Source)
    | GapAboveProof
    | BelowProof

  /** The DS set the next link is held to: the root anchors, or a set vouched for by the secure link above. */
  ghost predicate DsOrigin(w: World, past: Past, chain: seq<Link>, proofs: seq<Proof>, i: nat, zone: Name,
                           ds: seq<Ds>, src: Source)
    requires |chain| == |proofs| && i <= |chain|
  {
    if i == 0 then ds == w.anchors && ds != []
    else
      && chain[i-1].status == Secure && proofs[i-1].SecureProof?
      && src.At? && Answered(past.log, src.at, zone, TypeDS, false)
      && DsVouched(w.crypto, past.log[src.at].ask.msg, zone, proofs[i-1].keys, ds)
  }

  /** The secure link above was asked and has no DS for zone; the root has none only without anchors. */
  ghost predicate NoDs(w: World, past: Past, chain: seq<Link>, i: nat, zone: Name, src: Source)
    requires i <= |chain|
  {
    if i == 0 then w.anchors == []
    else
      && chain[i-1].status == Secure
      && src.At? && Answered(past.log, src.at, zone, TypeDS, false) && DsAbsent(past.log[src.at].ask.msg, zone)
  }

  /** The secure link above has a signed DS set for zone that its own keys did not sign. */
  ghost predicate DsBroken(w: World, past: Past, chain: seq<Link>, proofs: seq<Proof>, i: nat, zone: Name, src: Source)
    requires |chain| == |proofs| && i <= |chain|
  {
    && i > 0 && chain[i-1].status == Secure && proofs[i-1].SecureProof?
    && src.At? && Answered(past.log, src.at, zone, TypeDS, false)
    && DsRefuted(w.crypto, past.log[src.at].ask.msg, zone, proofs[i-1].keys)
  }

  /** The secure link above was asked for zone's DS set in vain, or sent one without a signature. */
  ghost predicate DsGap(w: World, past: Past, chain: seq<Link>, i: nat, zone: Name, src: Source)
    requires i <= |chain|
  {
    i > 0 && chain[i-1].status == Secure &&
    (|| (src.Unheard? && Silent(w, past, zone, TypeDS, src.turns, src.from, src.to))
     || (src.At? && Answered(past.log, src.at, zone, TypeDS, false) && DsUnsigned(past.log[src.at].ask.msg, zone)))
  }

  /** The zone was asked for its keys in vain, or sent keys its DS set names without a signature. */
  ghost predicate KeysGap(w: World, past: Past, zone: Name, ds: seq<Ds>, src: Source) {
    || (src.Unheard? && Silent(w, past, zone, TypeDNSKEY, src.turns, src.from, src.to))
    || (src.At? && Answered(past.log, src.at, zone, TypeDNSKEY, false)
        && KeysUnsigned(w.crypto, past.log[src.at].ask.msg, zone, ds))
  }

  ghost predicate LinkStands(w: World, past: Past, chain: seq<Link>, proofs: seq<Proof>, i: nat)
    requires |chain| == |proofs| && i < |chain|
  {
    var link, proof := chain[i], proofs[i];
    || (&& proof.SecureProof? && link.status == Secure
        && DsOrigin(w, past, chain, proofs, i, link.zone, proof.ds, proof.dsFrom)
        && proof.keysFrom.At? && Answered(past.log, proof.keysFrom.at, link.zone, TypeDNSKEY, false)
        && KeysProven(w.crypto, past.log[proof.keysFrom.at].ask.msg, link.zone, proof.ds, proof.keys))
    || (&& proof.NoDsProof? && link.status == Insecure
        && NoDs(w, past, chain, i, link.zone, proof.dsFrom))
    || (&& proof.BogusDsProof? && link.status == Bogus
        && DsBroken(w, past, chain, proofs, i, link.zone, proof.dsFrom))
    || (&& proof.BogusKeysProof? && link.status == Bogus
        && DsOrigin(w, past, chain, proofs, i, link.zone, proof.ds, proof.dsFrom)
        && proof.keysFrom.At? && Answered(past.log, proof.keysFrom.at, link.zone, TypeDNSKEY, false)
        && KeysRefuted(w.crypto, past.log[proof.keysFrom.at].ask.msg, link.zone, proof.ds))
    || (&& proof.DsGapProof? && link.status == Indeterminate
        && DsGap(w, past, chain, i, link.zone, proof.dsFrom))
    || (&& proof.KeysGapProof? && link.status == Indeterminate
        && DsOrigin(w, past, chain, proofs, i, link.zone, proof.ds, proof.dsFrom)
        && KeysGap(w, past, link.zone, proof.ds, proof.keysFrom))
    || (&& proof.GapAboveProof? && link.status == Indeterminate
        && i > 0 && chain[i-1].status == Indeterminate)
    || (&& proof.BelowProof? && link.status == Insecure
        && i > 0 && (chain[i-1].status == Insecure || chain[i-1].status == Bogus))
  }

  ghost predicate AllStand(w: World, past: Past, chain: seq<Link>, proofs: seq<Proof>) {
    |chain| == |proofs| && forall i :: 0 <= i < |chain| ==> LinkStands(w, past, chain, proofs, i)
  }

  /** What the parent said, backed by the log: enough to judge a next link for zone. */
  ghost predicate WordStands(w: World, past: Past, chain: seq<Link>, proofs: seq<Proof>, zone: Name, word: ParentWord,
                             src: Source)
  {
    var i := |chain|;
    && |chain| == |proofs|
    && (|| (word.status == None && word.ds != [] && DsOrigin(w, past, chain, proofs, i, zone, word.ds, src))
        || (word.status == None && word.ds == [] && NoDs(w, past, chain, i, zone, src))
        || (word.status == Some(Indeterminate) && src == Nothing && i > 0 && chain[i-1].status == Indeterminate)
        || (word.status == Some(Indeterminate) && src != Nothing && DsGap(w, past, chain, i, zone, src))
        || (word.status == Some(Insecure) && i > 0 && (chain[i-1].status == Insecure || chain[i-1].status == Bogus))
        || (word.status == Some(Bogus) && DsBroken(w, past, chain, proofs, i, zone, src)))
  }

  /** Where the next link belongs: the root first, then strictly down towards qname, hanging from the link before. */
  ghost predicate NextOnPath(qname: Name, chain: seq<Link>, zone: Name, parent: Option<Name>) {
    || (chain == [] && zone == [] && parent == None)
    || (chain != [] && parent == Some(chain[|chain|-1].zone) && chain[|chain|-1].zone < zone <= qname)
  }

  /** A chain in which every link has its place and its evidence. */
  ghost predicate Sound(w: World, past: Past, qname: Name, chain: seq<Link>, proofs: seq<Proof>) {
    var n := |chain| - 1;
    || (chain == [] && proofs == [])
    || (&& 0 < |chain| == |proofs|
        && Sound(w, past, qname, chain[..n], proofs[..n])
        && NextOnPath(qname, chain[..n], chain[n].zone, chain[n].parent)
        && LinkStands(w, past, chain, proofs, n))
  }

  /** Evidence survives later questions. */
  lemma {:induction false} SoundKept(w: World, past: Past, past': Past, qname: Name, chain: seq<Link>,
                                     proofs: seq<Proof>)
    requires Grows(past, past') && Sound(w, past, qname, chain, proofs)
    ensures Sound(w, past', qname, chain, proofs)
    decreases |chain|
  {
    hide LinkStands, NextOnPath;
    if chain != [] {
      var n := |chain| - 1;
      SoundKept(w, past, past', qname, chain[..n], proofs[..n]);
      LinkKept(w, past, past', chain, proofs, n);
    }
  }

  lemma LinkKept(w: World, past: Past, past': Past, chain: seq<Link>, proofs: seq<Proof>, i: nat)
    requires Grows(past, past') && |chain| == |proofs| && i < |chain| && LinkStands(w, past, chain, proofs, i)
    ensures LinkStands(w, past', chain, proofs, i)
  {
    SilenceKept(w, past, past', chain[i].zone);
    hide Silent, DsVouched, DsAbsent, DsRefuted, DsUnsigned, KeysProven, KeysRefuted, KeysUnsigned;
  }

  lemma SilenceKept(w: World, past: Past, past': Past, zone: Name)
    requires Grows(past, past')
    ensures forall t, turns, from, to :: Silent(w, past, zone, t, turns, from, to) ==>
              Silent(w, past', zone, t, turns, from, to)
  {
    forall t, turns, from, to | Silent(w, past, zone, t, turns, from, to)
      ensures Silent(w, past', zone, t, turns, from, to)
    {
      SilentKept(w, past, past', zone, t, turns, from, to);
    }
  }

  lemma WordKept(w: World, past: Past, past': Past, chain: seq<Link>, proofs: seq<Proof>, zone: Name,
                 word: ParentWord, src: Source)
    requires Grows(past, past') && WordStands(w, past, chain, proofs, zone, word, src)
    ensures WordStands(w, past', chain, proofs, zone, word, src)
  {
    SilenceKept(w, past, past', zone);
    hide Silent, DsVouched, DsAbsent, DsRefuted, DsUnsigned;
  }

  lemma {:induction false} SoundStands(w: World, past: Past, qname: Name, chain: seq<Link>, proofs: seq<Proof>)
    requires Sound(w, past, qname, chain, proofs)
    ensures AllStand(w, past, chain, proofs)
    decreases |chain|
  {
    hide LinkStands, NextOnPath;
    if chain != [] {
      var n := |chain| - 1;
      SoundStands(w, past, qname, chain[..n], proofs[..n]);
      forall i | 0 <= i < |chain| ensures LinkStands(w, past, chain, proofs, i) {
        if i < n {
          LinkStandsLonger(w, past, chain, proofs, n, i);
        }
      }
    }
  }

  lemma LinkStandsLonger(w: World, past: Past, chain: seq<Link>, proofs: seq<Proof>, n: nat, i: nat)
    requires |chain| == |proofs| && i < n <= |chain| && LinkStands(w, past, chain[..n], proofs[..n], i)
    ensures LinkStands(w, past, chain, proofs, i)
  {
    hide Silent, Answered, DsVouched, DsAbsent, DsRefuted, DsUnsigned, KeysProven, KeysRefuted, KeysUnsigned;
  }

  /** A link judged by the parent's word or, where that is open, by what asking for its keys came to. */
  ghost predicate LinkJudged(w: World, past: Past, word: ParentWord, link: Link, keys: Option<seq<Key>>, src: Source) {
    || (word.status == Some(link.status) && keys == None)
    || (&& word.status == None
        && exists r :: Learnt(w, past, link.zone, TypeDNSKEY, r, src)
             && KeysJudged(w.crypto, r, link.zone, word.ds, link.status, keys))
  }

  ghost function ProofOf(word: ParentWord, dsFrom: Source, link: Link, keys: Option<seq<Key>>,
                         keysFrom: Source): Proof {
    if keys.Some? then SecureProof(word.ds, dsFrom, keys.value, keysFrom)
    else match link.status
         case Bogus => if word.status.None? then BogusKeysProof(word.ds, dsFrom, keysFrom) else BogusDsProof(dsFrom)
         case Insecure => if word.status.None? then NoDsProof(dsFrom) else BelowProof
         case _ =>
           if word.status.None? then KeysGapProof(word.ds, dsFrom, keysFrom)
           else if dsFrom == Nothing then GapAboveProof
           else DsGapProof(dsFrom)
  }

  /** keys are those of the last link, and there are any only if it is secure. */
  ghost predicate KeysCurrent(chain: seq<Link>, proofs: seq<Proof>, keys: Option<seq<Key>>) {
    || (&& keys == None && 0 < |chain| == |proofs| && chain[|chain|-1].status != Secure)
    || (&& keys.Some? && 0 < |chain| == |proofs| && chain[|chain|-1].status == Secure
        && proofs[|proofs|-1].SecureProof? && proofs[|proofs|-1].keys == keys.value)
  }

  lemma InheritedLinkStands(w: World, past: Past, chain: seq<Link>, proofs: seq<Proof>, word: ParentWord,
                            dsFrom: Source, link: Link, keysFrom: Source, proof: Proof)
    requires WordStands(w, past, chain, proofs, link.zone, word, dsFrom)
    requires word.status == Some(link.status) && proof == ProofOf(word, dsFrom, link, None, keysFrom)
    ensures LinkStands(w, past, chain + [link], proofs + [proof], |chain|)
  {
    hide Silent, Answered, DsVouched, DsAbsent, DsRefuted, DsUnsigned, KeysProven, KeysRefuted, KeysUnsigned;
    assert chain != [] ==> (chain + [link])[|chain|-1] == chain[|chain|-1];
  }

  lemma OpenLinkStands(w: World, past: Past, chain: seq<Link>, proofs: seq<Proof>, word: ParentWord, dsFrom: Source,
                       r: Option<Msg>, link: Link, keys: Option<seq<Key>>, keysFrom: Source, proof: Proof)
    requires word.status == None && WordStands(w, past, chain, proofs, link.zone, word, dsFrom)
    requires KeysJudged(w.crypto, r, link.zone, word.ds, link.status, keys)
    requires Learnt(w, past, link.zone, TypeDNSKEY, r, keysFrom)
    requires proof == ProofOf(word, dsFrom, link, keys, keysFrom)
    ensures LinkStands(w, past, chain + [link], proofs + [proof], |chain|)
  {
    hide DsVouched, DsAbsent, DsRefuted, KeysProven, KeysRefuted, KeysUnsigned, Answered, Silent;
    var chain', proofs' := chain + [link], proofs + [proof];
    assert |chain| > 0 ==> chain'[|chain|-1] == chain[|chain|-1] && proofs'[|chain|-1] == proofs[|chain|-1];
    if word.ds == [] {
      assert NoDs(w, past, chain, |chain|, link.zone, dsFrom);
      assert NoDs(w, past, chain', |chain|, link.zone, dsFrom);
    } else {
      assert DsOrigin(w, past, chain, proofs, |chain|, link.zone, word.ds, dsFrom);
      assert DsOrigin(w, past, chain', proofs', |chain|, link.zone, word.ds, dsFrom);
    }
    assert chain'[|chain|] == link && proofs'[|chain|] == proof;
  }

  /** A link judged by a word that stands can be added. */
  lemma JudgedLinkStands(w: World, past: Past, chain: seq<Link>, proofs: seq<Proof>, word: ParentWord, dsFrom: Source,
                         qname: Name, link: Link, keys: Option<seq<Key>>, keysFrom: Source) returns (proof: Proof)
    requires Sound(w, past, qname, chain, proofs) && NextOnPath(qname, chain, link.zone, link.parent)
    requires WordStands(w, past, chain, proofs, link.zone, word, dsFrom)
    requires LinkJudged(w, past, word, link, keys, keysFrom)
    ensures Sound(w, past, qname, chain + [link], proofs + [proof])
    ensures KeysCurrent(chain + [link], proofs + [proof], keys)
  {
    hide LinkStands, NextOnPath, WordStands, KeysProven, KeysRefuted, KeysUnsigned, Learnt;
    assert (chain + [link])[..|chain|] == chain;
    proof := ProofOf(word, dsFrom, link, keys, keysFrom);
    assert (proofs + [proof])[..|proofs|] == proofs;
    if word.status == None {
      var r :| Learnt(w, past, link.zone, TypeDNSKEY, r, keysFrom)
        && KeysJudged(w.crypto, r, link.zone, word.ds, link.status, keys);
      OpenLinkStands(w, past, chain, proofs, word, dsFrom, r, link, keys, keysFrom, proof);
    } else {
      InheritedLinkStands(w, past, chain, proofs, word, dsFrom, link, keysFrom, proof);
      SettledIsNotSecure(w, past, chain, proofs, link.zone, word, dsFrom);
    }
  }

  lemma SettledIsNotSecure(w: World, past: Past, chain: seq<Link>, proofs: seq<Proof>, zone: Name, word: ParentWord,
                           src: Source)
    requires WordStands(w, past, chain, proofs, zone, word, src)
    ensures word.status != Some(Secure) && |chain| == |proofs|
  {
    hide DsOrigin, NoDs, DsBroken, DsGap;
  }

  // ----- the shape of a chain -----

  /** Secure links, then nothing, or gaps only, or one unsigned or bogus link with only insecure ones below it. */
  ghost predicate Shaped(chain: seq<Link>, k: nat) {
    && k <= |chain|
    && (forall i :: 0 <= i < k ==> chain[i].status == Secure)
    && (k < |chain| ==>
          || (forall i :: k <= i < |chain| ==> chain[i].status == Indeterminate)
          || (&& (chain[k].status == Insecure || chain[k].status == Bogus)
              && forall i :: k < i < |chain| ==> chain[i].status == Insecure))
  }

  /** What a link may be under the one above it. */
  predicate Follows(above: Status, below: Status) {
    match above
    case Secure => true
    case Indeterminate => below == Indeterminate
    case Insecure => below == Insecure
    case Bogus => below == Insecure
  }

  ghost predicate AllFollow(chain: seq<Link>) {
    forall i :: 0 < i < |chain| ==> Follows(chain[i-1].status, chain[i].status)
  }

  lemma StandingLinksFollow(w: World, past: Past, chain: seq<Link>, proofs: seq<Proof>)
    requires AllStand(w, past, chain, proofs)
    ensures AllFollow(chain)
  {
    forall i | 0 < i < |chain| ensures Follows(chain[i-1].status, chain[i].status) {
      assert LinkStands(w, past, chain, proofs, i);
    }
  }

  lemma {:induction false} ChainShape(chain: seq<Link>) returns (k: nat)
    requires AllFollow(chain)
    ensures Shaped(chain, k)
    decreases |chain|
  {
    if chain == [] {
      return 0;
    }
    var n := |chain| - 1;
    k := ChainShape(chain[..n]);
    assert n > 0 ==> Follows(chain[n-1].status, chain[n].status);
    if k == n && chain[n].status == Secure {
      k := n + 1;
    }
  }

  /** At most one link is bogus, and a gap is never followed by, nor follows, an insecure link. */
  lemma ShapeExcludes(chain: seq<Link>, k: nat)
    requires Shaped(chain, k)
    ensures forall i, j :: 0 <= i < j < |chain| && chain[i].status == Bogus ==> chain[j].status != Bogus
    ensures forall i, j :: 0 <= i < |chain| && 0 <= j < |chain| && chain[i].status == Indeterminate ==>
              chain[j].status == Secure || chain[j].status == Indeterminate
  {
  }

  // ----- the path of a walk -----

  /** Zones go strictly down from the root towards qname, each link hanging from the one before. */
  ghost predicate Descends(qname: Name, chain: seq<Link>) {
    && (forall i :: 0 <= i < |chain| ==> chain[i].zone <= qname)
    && (forall i :: 0 < i < |chain| ==>
          chain[i].parent == Some(chain[i-1].zone) && chain[i-1].zone < chain[i].zone)
    && (chain != [] ==> chain[0].zone == [] && chain[0].parent == None)
  }

  /** Each link costs the name at least one more label. */
  lemma {:induction false} DepthBoundsChain(qname: Name, chain: seq<Link>)
    requires Descends(qname, chain) && chain != []
    ensures |chain| - 1 <= |chain[|chain|-1].zone| <= |qname|
    decreases |chain|
  {
    if |chain| > 1 {
      DepthBoundsChain(qname, chain[..|chain|-1]);
    }
  }

  lemma {:induction false} SoundDescends(w: World, past: Past, qname: Name, chain: seq<Link>, proofs: seq<Proof>)
    requires Sound(w, past, qname, chain, proofs)
    ensures Descends(qname, chain)
    decreases |chain|
  {
    hide LinkStands, NextOnPath, Descends;
    if chain == [] {
      NoneDescends(qname);
    } else {
      var n := |chain| - 1;
      SoundDescends(w, past, qname, chain[..n], proofs[..n]);
      DescendsMore(qname, chain);
    }
  }

  lemma NoneDescends(qname: Name)
    ensures Descends(qname, [])
  {
  }

  lemma DescendsMore(qname: Name, chain: seq<Link>)
    requires chain != [] && Descends(qname, chain[..|chain|-1])
    requires NextOnPath(qname, chain[..|chain|-1], chain[|chain|-1].zone, chain[|chain|-1].parent)
    ensures Descends(qname, chain)
  {
    var n := |chain| - 1;
    assert forall i :: 0 <= i < n ==> chain[i] == chain[..n][i];
    if n == 0 {
      assert chain[..n] == [];
    }
  }

  /** A name of at most ten labels has at most eleven links, so twelve turns are never used up. */
  lemma ShortNamesFit(qname: Name, chain: seq<Link>)
    requires Descends(qname, chain) && |qname| <= MAX_NAME_LABELS
    ensures |chain| < MAX_DEPTH
  {
    if chain != [] {
      DepthBoundsChain(qname, chain);
    }
  }
}
