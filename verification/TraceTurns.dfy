/** One turn of a walk, from the zone it is at to the zone below or the end, and turns in sequence. */
module TraceTurns {
  import opened Basics
  import opened DnsRecords
  import opened TraceChecks
  import opened TraceRounds
  import opened TraceEvidence
  import opened TraceVerdict

  const NOTHING_SHOWN := Shown(None, NoError, [], None, false, false)

  // ----- a referral's servers -----

  /** Every server in turn, from the h-th on and round to the start. */
  function Rotate(s: seq<Server>, h: nat): (r: seq<Server>)
    ensures |r| == |s|
    ensures s != [] ==> forall i :: 0 <= i < |s| ==>
      r[i] == if h % |s| + i < |s| then s[h % |s| + i] else s[h % |s| + i - |s|]
  {
    if s == [] then s else s[h % |s|..] + s[..h % |s|]
  }

  /** The first routable glue address of one family for a nameserver, "" if none. */
  function Glue(w: World, rrs: seq<RR>, host: Name, v6: bool): Ip {
    if rrs == [] then ""
    else if rrs[0].owner == host && !v6 && rrs[0].data.AddressV4? && w.routable(rrs[0].data.ip) then rrs[0].data.ip
    else if rrs[0].owner == host && v6 && rrs[0].data.AddressV6? && w.routable(rrs[0].data.ip) then rrs[0].data.ip
    else Glue(w, rrs[1..], host, v6)
  }

  function GlueServer(w: World, rrs: seq<RR>, host: Name): Server {
    Server(host, Glue(w, rrs, host, false), Glue(w, rrs, host, true))
  }

  predicate HasGlue(w: World, rrs: seq<RR>, host: Name) {
    AddressOf(w, GlueServer(w, rrs, host)).Some?
  }

  predicate GivesGlue(w: World, rrs: seq<RR>, host: Name, v6: bool, i: int) {
    && 0 <= i < |rrs| && rrs[i].owner == host
    && (if v6 then rrs[i].data.AddressV6? else rrs[i].data.AddressV4?) && w.routable(rrs[i].data.ip)
  }

  ghost predicate GivesFirst(w: World, rrs: seq<RR>, host: Name, v6: bool, i: int) {
    GivesGlue(w, rrs, host, v6, i) && forall j :: 0 <= j < i ==> !GivesGlue(w, rrs, host, v6, j)
  }

  /** One unroutable glue record does not hide a good one of its family. */
  lemma {:induction false} GlueIsFirst(w: World, rrs: seq<RR>, host: Name, v6: bool)
    ensures var r := Glue(w, rrs, host, v6);
      || (r == "" && forall i :: !GivesGlue(w, rrs, host, v6, i))
      || exists i :: GivesFirst(w, rrs, host, v6, i) && r == rrs[i].data.ip
  {
    if rrs != [] && !GivesGlue(w, rrs, host, v6, 0) {
      var rest := rrs[1..];
      GlueIsFirst(w, rest, host, v6);
      assert forall i :: 0 <= i < |rest| ==> (GivesGlue(w, rest, host, v6, i) <==> GivesGlue(w, rrs, host, v6, i + 1));
      if i :| GivesFirst(w, rest, host, v6, i) && Glue(w, rrs, host, v6) == rest[i].data.ip {
        forall j | 0 <= j < i + 1 ensures !GivesGlue(w, rrs, host, v6, j) {
          assert j > 0 ==> !GivesGlue(w, rest, host, v6, j - 1);
        }
        assert GivesFirst(w, rrs, host, v6, i + 1);
      } else {
        forall i ensures !GivesGlue(w, rrs, host, v6, i) {
          assert i > 0 ==> !GivesGlue(w, rest, host, v6, i - 1);
        }
      }
    } else if rrs != [] {
      assert GivesFirst(w, rrs, host, v6, 0);
    }
  }

  /** A nameserver has usable glue exactly when the referral carries a routable address of either family for it. */
  lemma HasGlueIff(w: World, rrs: seq<RR>, host: Name)
    requires !w.routable("")
    ensures HasGlue(w, rrs, host) <==> exists v6, i :: GivesGlue(w, rrs, host, v6, i)
  {
    GlueIsFirst(w, rrs, host, false);
    GlueIsFirst(w, rrs, host, true);
  }

  /** The nameservers with usable glue, in order. */
  function Glued(w: World, rrs: seq<RR>, hosts: seq<Name>): seq<Server> {
    if hosts == [] then []
    else
      var init, last := Glued(w, rrs, hosts[..|hosts|-1]), hosts[|hosts|-1];
      if HasGlue(w, rrs, last) then init + [GlueServer(w, rrs, last)] else init
  }

  /** The nameservers without, in order. */
  function Glueless(w: World, rrs: seq<RR>, hosts: seq<Name>): seq<Name> {
    if hosts == [] then []
    else
      var init, last := Glueless(w, rrs, hosts[..|hosts|-1]), hosts[|hosts|-1];
      if HasGlue(w, rrs, last) then init else init + [last]
  }

  /** What looking names up, one after another at the given readings of the clock, finds. */
  function Found(w: World, times: seq<nat>, names: seq<Name>): (r: seq<Server>)
    requires |times| <= |names|
    ensures |r| <= |times|
  {
    if times == [] then []
    else
      var n := |times| - 1;
      var init, ip := Found(w, times[..n], names), w.lookup(times[n], names[n]);
      if ip != "" then init + [Server(names[n], ip, "")] else init
  }

  function NamesOf(servers: seq<Server>): seq<Name> {
    if servers == [] then [] else NamesOf(servers[..|servers|-1]) + [servers[|servers|-1].name]
  }

  lemma FoundMore(w: World, times: seq<nat>, names: seq<Name>, t: nat)
    requires |times| < |names|
    ensures var ip, n := w.lookup(t, names[|times|]), names[|times|];
      && Found(w, times + [t], names) == Found(w, times, names) + (if ip != "" then [Server(n, ip, "")] else [])
      && NamesOf(Found(w, times + [t], names)) == NamesOf(Found(w, times, names)) + (if ip != "" then [n] else [])
  {
    assert (times + [t])[..|times|] == times;
    var found, s := Found(w, times, names), Server(names[|times|], w.lookup(t, names[|times|]), "");
    assert (found + [s])[..|found|] == found;
  }

  /** Some side lookups, at most two, each made while there were fewer than three servers. */
  ghost predicate ToppingUp(w: World, glued: seq<Server>, names: seq<Name>, times: seq<nat>, servers: seq<Server>) {
    && |times| <= |names| && |times| <= MAX_SIDE_LOOKUPS
    && servers == glued + Found(w, times, names)
    && (times != [] ==> |glued + Found(w, times[..|times|-1], names)| < MAX_SERVERS_PER_HOP)
  }

  lemma ToppingMore(w: World, glued: seq<Server>, names: seq<Name>, times: seq<nat>, servers: seq<Server>, t: nat)
    requires ToppingUp(w, glued, names, times, servers) && |times| < |names|
    requires |servers| < MAX_SERVERS_PER_HOP && |times| < MAX_SIDE_LOOKUPS
    ensures var ip, n := w.lookup(t, names[|times|]), names[|times|];
      && ToppingUp(w, glued, names, times + [t], if ip != "" then servers + [Server(n, ip, "")] else servers)
      && NamesOf(Found(w, times + [t], names)) == NamesOf(Found(w, times, names)) + if ip != "" then [n] else []
  {
    assert (times + [t])[..|times|] == times;
    FoundMore(w, times, names, t);
    hide Found;
  }

  lemma ToppingBegins(w: World, glued: seq<Server>, names: seq<Name>)
    ensures ToppingUp(w, glued, names, [], glued) && NamesOf(Found(w, [], names)) == []
  {
  }

  lemma IsToppedUp(w: World, glued: seq<Server>, names: seq<Name>, times: seq<nat>, servers: seq<Server>, over: bool)
    requires ToppingUp(w, glued, names, times, servers)
    requires |times| < |names| && |times| < MAX_SIDE_LOOKUPS && |servers| < MAX_SERVERS_PER_HOP ==> over
    ensures ToppedUp(w, glued, names, times, servers, over)
  {
    hide ToppingUp;
  }

  /** Side lookups from the first nameserver without glue on: at most two, none once there are three servers, and none
      left undone but for the budget or the clock. */
  ghost predicate ToppedUp(w: World, glued: seq<Server>, names: seq<Name>, times: seq<nat>, servers: seq<Server>,
                           over: bool) {
    && ToppingUp(w, glued, names, times, servers)
    && (|times| < |names| && |times| < MAX_SIDE_LOOKUPS && |servers| < MAX_SERVERS_PER_HOP ==> over)
  }

  /** The servers taken from a referral: those with usable glue, rotated, then those side lookups found. */
  ghost predicate ServersTaken(w: World, rrs: seq<RR>, child: Name, hosts: seq<Name>, hop: Hop, hop': Hop,
                               servers: seq<Server>, over: bool) {
    && (exists times ::
          && ToppedUp(w, Rotate(Glued(w, rrs, hosts), w.rotation), Glueless(w, rrs, hosts), times, servers, over)
          && hop'.sideLookups == hop.sideLookups + NamesOf(Found(w, times, Glueless(w, rrs, hosts))))
    && (hop'.glueMissing <==> hop.glueMissing || exists h :: h in hosts && child <= h && !HasGlue(w, rrs, h))
    && hop' == hop.(glueMissing := hop'.glueMissing, sideLookups := hop'.sideLookups)
  }

  /** Whether a hop failed is noted after its servers are known. */
  lemma FailedTaken(w: World, rrs: seq<RR>, child: Name, hosts: seq<Name>, hop: Hop, hop': Hop, servers: seq<Server>,
                    over: bool, failed: bool)
    requires ServersTaken(w, rrs, child, hosts, hop, hop', servers, over)
    ensures ServersTaken(w, rrs, child, hosts, hop.(failed := failed), hop'.(failed := failed), servers, over)
  {
    hide ToppedUp, HasGlue;
  }

  // ----- one hop -----

  /** The nameservers some records name, in order. */
  function HostsNamed(rrs: seq<RR>): seq<Name> {
    if rrs == [] then []
    else
      var init, last := HostsNamed(rrs[..|rrs|-1]), rrs[|rrs|-1];
      if last.data.NameServer? then init + [last.data.host] else init
  }

  /** The addresses some records hold, in order. */
  function AddressesHeld(rrs: seq<RR>): seq<Ip> {
    if rrs == [] then []
    else
      var init, last := AddressesHeld(rrs[..|rrs|-1]), rrs[|rrs|-1];
      if last.data.AddressV4? || last.data.AddressV6? then init + [last.data.ip] else init
  }

  function BlankHop(zone: Name): Hop {
    Hop(zone, None, None, false, multiset{}, multiset{}, None, None, false, [], false)
  }

  /** What a hop records of its zone's reply and of the server that gave it. */
  ghost predicate HopRecorded(w: World, zone: Name, servers: seq<Server>, log: seq<Exchange>, resp: Option<Msg>,
                              hop: Hop) {
    || (resp == None && hop == BlankHop(zone).(failed := true))
    || (resp.Some? && log != [] && hop.server.Some? && hop.server.value in servers
        && AddressOf(w, hop.server.value) == Some(log[|log|-1].ip)
        && hop == BlankHop(zone).(
             server := hop.server,
             rcode := Some(resp.value.rcode),
             authoritative := resp.value.authoritative,
             nameservers := multiset(HostsNamed(resp.value.answer + resp.value.ns)),
             glue := multiset(AddressesHeld(resp.value.extra))))
  }

  lemma HopFits(w: World, zone: Name, servers: seq<Server>, log: seq<Exchange>, resp: Option<Msg>, hop: Hop)
    requires HopRecorded(w, zone, servers, log, resp, hop)
    ensures hop.zone == zone && (resp.Some? ==> hop.referral == None && !hop.failed)
  {
  }

  // ----- one turn -----

  /** A link is judged by the parent's word alone, or its keys are asked for and judged. */
  ghost predicate ZoneAsked(w: World, servers: seq<Server>, word: ParentWord, link: Link, keys: Option<seq<Key>>,
                            p: Past, p': Past) {
    || (word.status == Some(link.status) && keys == None && p' == p
        && link == Link(link.zone, link.parent, link.status, DsTags(word.ds), [], None, false))
    || (word.status == None
        && exists r :: Consulted(w, servers, link.zone, TypeDNSKEY, false, p, p', r)
             && KeysJudged(w.crypto, r, link.zone, word.ds, link.status, keys)
             && LinkFilled(w.crypto, r, word.ds, link))
  }

  /** The word on a child is the link above's own gap or lack of trust, or its servers are asked and their reply
      judged. */
  ghost predicate DsAsked(w: World, servers: seq<Server>, child: Name, keys: Option<seq<Key>>, above: Status,
                          word: ParentWord, p: Past, p': Past) {
    || (keys == None && p' == p
        && word == ParentWord([], Some(if above == Indeterminate then Indeterminate else Insecure)))
    || (keys.Some?
        && exists r: Option<Msg> :: Consulted(w, servers, child, TypeDS, false, p, p', r)
             && (if r.Some? then DsJudged(w.crypto, r.value, child, keys.value, word)
                 else word == ParentWord([], Some(Indeterminate))))
  }

  /** The zone a reply claims for the answer gets a link of its own, its parent's word asked for first. */
  ghost predicate CutJudged(w: World, servers: seq<Server>, zone: Name, cut: Option<Name>, keys: Option<seq<Key>>,
                            chain: seq<Link>, p: Past, chain': seq<Link>, p': Past) {
    || (cut == None && chain' == chain && p' == p)
    || (cut.Some? && chain != [] && |chain'| == |chain| + 1 && chain <= chain'
        && chain'[|chain|].zone == cut.value && chain'[|chain|].parent == Some(zone)
        && exists word, p1, keys' ::
             && DsAsked(w, servers, cut.value, keys, chain[|chain|-1].status, word, p, p1)
             && ZoneAsked(w, servers, word, chain'[|chain|], keys', p1, p'))
  }

  /** One turn of a walk: what it started from and what it left. */
  datatype Stage = Stage(
    zone: Name, servers: seq<Server>, word: ParentWord, link: Link,
    before: Past, chain: seq<Link>, after: Past, chain': seq<Link>,
    hop: Hop, child: Option<Name>, children: seq<Server>, word': ParentWord)

  /** Nothing was asked, though a limit may have been hit. */
  predicate Idle(p: Past, p': Past) {
    p'.log == p.log && p'.dead == p.dead && (p.over ==> p'.over)
  }

  /** A referral on the path is followed with its parent's word and the servers it gave; any other ends the walk. */
  ghost predicate Referred(w: World, qname: Name, s: Stage, resp: Msg, keys: Option<seq<Key>>, p: Past, hop: Hop) {
    exists hosts :: ReferralRead(resp.ns, s.zone, qname, s.hop.referral, hosts)
      && (if s.hop.referral.None? then s.child == None && s.hop == hop && s.after == p
          else ReferralFollowed(w, s, resp, keys, p, hop, hosts))
  }

  ghost predicate ReferralFollowed(w: World, s: Stage, resp: Msg, keys: Option<seq<Key>>, p: Past, hop: Hop,
                                   hosts: seq<Name>)
    requires s.hop.referral.Some?
  {
    && (exists p1 :: DsAsked(w, s.servers, s.hop.referral.value, keys, s.link.status, s.word', p, p1)
          && Idle(p1, s.after))
    && ServersTaken(w, resp.extra, s.hop.referral.value, w.sorted(hosts),
                    hop.(referral := s.hop.referral, failed := s.children == []), s.hop, s.children, s.after.over)
    && s.child == if s.children == [] then None else s.hop.referral
  }

  /** Where a turn leads once its zone's servers were asked. */
  ghost predicate TurnEnds(w: World, qname: Name, s: Stage, keys: Option<seq<Key>>, resp: Option<Msg>, p: Past,
                           hop: Hop) {
    || (resp == None && s.child == None && s.after == p && s.chain' == s.chain + [s.link] && s.hop == hop)
    || (resp.Some? && resp.value.authoritative && s.child == None && s.hop == hop.(zoneCut := s.hop.zoneCut)
        && ShallowestNamed(resp.value.answer + resp.value.ns, s.zone, qname, s.hop.zoneCut)
        && CutJudged(w, s.servers, s.zone, s.hop.zoneCut, keys, s.chain + [s.link], p, s.chain', s.after))
    || (resp.Some? && !resp.value.authoritative && s.chain' == s.chain + [s.link]
        && Referred(w, qname, s, resp.value, keys, p, hop))
  }

  /** One zone's turn: its keys judged, its servers asked, and where their reply leads. */
  ghost predicate StageTaken(w: World, qname: Name, qtype: RType, s: Stage) {
    exists keys, p1, p2, resp, hop ::
      && s.link.zone == s.zone && ZoneAsked(w, s.servers, s.word, s.link, keys, s.before, p1)
      && Consulted(w, s.servers, qname, qtype, true, p1, p2, resp)
      && HopRecorded(w, s.zone, s.servers, p2.log, resp, hop)
      && TurnEnds(w, qname, s, keys, resp, p2, hop)
  }

  lemma CutIsJudged(w: World, servers: seq<Server>, zone: Name, cut: Name, keys: Option<seq<Key>>, chain: seq<Link>,
                    p: Past, word: ParentWord, p1: Past, link: Link, keys': Option<seq<Key>>, p': Past)
    requires chain != [] && link.zone == cut && link.parent == Some(zone)
    requires DsAsked(w, servers, cut, keys, chain[|chain|-1].status, word, p, p1)
    requires ZoneAsked(w, servers, word, link, keys', p1, p')
    ensures CutJudged(w, servers, zone, Some(cut), keys, chain, p, chain + [link], p')
  {
    hide DsAsked, ZoneAsked;
    assert (chain + [link])[|chain|] == link;
  }

  lemma NoCutIsJudged(w: World, servers: seq<Server>, zone: Name, keys: Option<seq<Key>>, chain: seq<Link>, p: Past)
    ensures CutJudged(w, servers, zone, None, keys, chain, p, chain, p)
  {
  }

  lemma NotReferred(w: World, qname: Name, s: Stage, resp: Msg, keys: Option<seq<Key>>, hosts: seq<Name>)
    requires ReferralRead(resp.ns, s.zone, qname, None, hosts) && s.hop.referral == None && s.child == None
    ensures Referred(w, qname, s, resp, keys, s.after, s.hop)
  {
    hide ReferralRead, ReferralFollowed;
  }

  lemma IsReferred(w: World, qname: Name, s: Stage, resp: Msg, keys: Option<seq<Key>>, p: Past, p1: Past, hop: Hop,
                   hosts: seq<Name>)
    requires s.hop.referral.Some? && ReferralRead(resp.ns, s.zone, qname, s.hop.referral, hosts)
    requires DsAsked(w, s.servers, s.hop.referral.value, keys, s.link.status, s.word', p, p1)
    requires p1.log == s.after.log && p1.dead == s.after.dead && (p1.over ==> s.after.over)
    requires ServersTaken(w, resp.extra, s.hop.referral.value, w.sorted(hosts),
                          hop.(referral := s.hop.referral, failed := s.children == []), s.hop, s.children, s.after.over)
    requires s.child == if s.children == [] then None else s.hop.referral
    ensures Referred(w, qname, s, resp, keys, p, hop)
  {
    hide ReferralRead, DsAsked, ServersTaken;
    assert Idle(p1, s.after);
    assert ReferralFollowed(w, s, resp, keys, p, hop, hosts);
  }

  lemma StageDone(w: World, qname: Name, qtype: RType, s: Stage, keys: Option<seq<Key>>, resp: Option<Msg>, p1: Past,
                  p2: Past, hop: Hop)
    requires s.link.zone == s.zone && ZoneAsked(w, s.servers, s.word, s.link, keys, s.before, p1)
    requires Consulted(w, s.servers, qname, qtype, true, p1, p2, resp)
    requires HopRecorded(w, s.zone, s.servers, p2.log, resp, hop)
    requires resp == None ==> s.child == None && s.after == p2 && s.chain' == s.chain + [s.link] && s.hop == hop
    requires resp.Some? && resp.value.authoritative ==>
      && s.child == None && s.hop == hop.(zoneCut := s.hop.zoneCut)
      && ShallowestNamed(resp.value.answer + resp.value.ns, s.zone, qname, s.hop.zoneCut)
      && CutJudged(w, s.servers, s.zone, s.hop.zoneCut, keys, s.chain + [s.link], p2, s.chain', s.after)
    requires resp.Some? && !resp.value.authoritative ==>
      s.chain' == s.chain + [s.link] && Referred(w, qname, s, resp.value, keys, p2, hop)
    ensures StageTaken(w, qname, qtype, s)
  {
    hide ZoneAsked, Consulted, HopRecorded, ShallowestNamed, CutJudged, Referred;
    assert TurnEnds(w, qname, s, keys, resp, p2, hop);
  }

  lemma IdleGrows(p: Past, p1: Past, p2: Past)
    requires Grows(p, p1) && p2.log == p1.log && (p1.over ==> p2.over)
    ensures Grows(p, p2) && Grows(p1, p2)
  {
  }

  lemma BelowLast(qname: Name, chain: seq<Link>, child: Name)
    requires chain != [] && chain[|chain|-1].zone < child <= qname
    ensures NextOnPath(qname, chain, child, Some(chain[|chain|-1].zone))
  {
  }

  lemma AnswerConcluded(w: World, p: Past, p': Past, chain: seq<Link>, proofs: seq<Proof>, qname: Name, qtype: RType,
                        keys: Option<seq<Key>>, shown: Shown, state: AnswerState, at: nat)
    requires Grows(p, p') && Answered(p.log, at, qname, qtype, true) && p.log[at].ask.msg.authoritative
    requires KeysCurrent(chain, proofs, keys)
    requires AnswerJudged(w.crypto, p.log[at].ask.msg, qname, qtype, chain[|chain|-1].zone, keys, shown, state)
    ensures AnswerStands(w, p', chain, proofs, qname, qtype, shown, state, at)
    ensures state != Unset && at < |p'.log| && p'.log[at] == p.log[at]
  {
    hide AnswerJudged;
    JudgedAnswerIsSet(w.crypto, p.log[at].ask.msg, qname, qtype, chain[|chain|-1].zone, keys, shown, state);
    assert p'.log[at] == p.log[at];
  }

  lemma EndedAnswered(w: World, p: Past, chain: seq<Link>, proofs: seq<Proof>, qname: Name, qtype: RType,
                      hops: seq<Hop>, shown: Shown, answer: AnswerState, at: nat)
    requires answer != Unset && AnswerStands(w, p, chain, proofs, qname, qtype, shown, answer, at)
    requires hops != [] && shown.zone.Some? && at < |p.log| && p.log[at].ask.Reply?
    requires OwnerFound(p.log[at].ask.msg, hops[|hops|-1].zone, qname, shown.zone.value)
    ensures Ended(w, p, chain, proofs, qname, qtype, hops, shown, answer, p.over)
  {
    hide AnswerStands, OwnerFound;
  }

  lemma OwnerIsFound(m: Msg, asked: Name, qname: Name, cut: Option<Name>)
    requires ShallowestNamed(m.answer + m.ns, asked, qname, cut) && (cut.Some? ==> asked < cut.value)
    ensures OwnerFound(m, asked, qname, if cut.Some? then cut.value else asked)
  {
    hide ShallowestNamed;
  }

  lemma EndedStuck(w: World, p: Past, chain: seq<Link>, proofs: seq<Proof>, qname: Name, qtype: RType, hops: seq<Hop>,
                   shown: Shown)
    requires shown.zone == None && hops != [] && Stopped(hops[|hops|-1])
    ensures Ended(w, p, chain, proofs, qname, qtype, hops, shown, Unset, p.over)
  {
  }

  /** A turn without a child below or an authoritative answer stops the walk. */
  lemma TurnStops(w: World, qname: Name, s: Stage, servers: seq<Server>, log: seq<Exchange>, keys: Option<seq<Key>>,
                  resp: Option<Msg>, p: Past, hop: Hop)
    requires HopRecorded(w, s.zone, servers, log, resp, hop) && s.child == None
    requires resp == None ==> s.hop == hop
    requires resp.Some? ==> !resp.value.authoritative && Referred(w, qname, s, resp.value, keys, p, hop)
    ensures Stopped(s.hop)
  {
    hide ReferralRead, DsAsked, ToppedUp, HasGlue;
  }

  // ----- turns in sequence -----

  /** Where some turns leave the walk. */
  function PastOf(stages: seq<Stage>): Past {
    if stages == [] then Past([], {}, false) else stages[|stages|-1].after
  }

  function ChainOf(stages: seq<Stage>): seq<Link> {
    if stages == [] then [] else stages[|stages|-1].chain'
  }

  function HopsOf(stages: seq<Stage>): seq<Hop> {
    if stages == [] then [] else HopsOf(stages[..|stages|-1]) + [stages[|stages|-1].hop]
  }

  /** The zone a turn is for, where it hangs, whom to ask, and the parent's word with its source. */
  datatype Turn = Turn(zone: Name, parent: Option<Name>, servers: seq<Server>, word: ParentWord, src: Source)

  /** What the next turn starts from: the root hints and anchors, or what the last one left. */
  ghost predicate NextUp(w: World, stages: seq<Stage>, zone: Name, servers: seq<Server>, word: ParentWord) {
    if stages == [] then zone == [] && servers == Rotate(w.hints, w.rotation) && word == ParentWord(w.anchors, None)
    else
      var s := stages[|stages|-1];
      s.child == Some(zone) && servers == s.children && word == s.word'
  }

  /** Turns from the root hints and anchors on, each starting where the one before left off. */
  ghost predicate Staged(w: World, qname: Name, qtype: RType, stages: seq<Stage>) {
    stages == [] ||
    var before, s := stages[..|stages|-1], stages[|stages|-1];
    && Staged(w, qname, qtype, before) && StageTaken(w, qname, qtype, s)
    && s.before == PastOf(before) && s.chain == ChainOf(before)
    && NextUp(w, before, s.zone, s.servers, s.word)
  }

  lemma StagedMore(w: World, qname: Name, qtype: RType, stages: seq<Stage>, s: Stage)
    requires Staged(w, qname, qtype, stages) && StageTaken(w, qname, qtype, s)
    requires s.before == PastOf(stages) && s.chain == ChainOf(stages) && NextUp(w, stages, s.zone, s.servers, s.word)
    ensures Staged(w, qname, qtype, stages + [s]) && HopsOf(stages + [s]) == HopsOf(stages) + [s.hop]
    ensures PastOf(stages + [s]) == s.after && ChainOf(stages + [s]) == s.chain'
    ensures s.child.Some? ==> NextUp(w, stages + [s], s.child.value, s.children, s.word')
  {
    hide StageTaken;
    assert (stages + [s])[..|stages|] == stages;
  }

  /** All that a walk has so far. */
  datatype Progress = Progress(past: Past, chain: seq<Link>, proofs: seq<Proof>, hops: seq<Hop>, shown: Shown,
                               answer: AnswerState, stages: seq<Stage>)

  /** A walk between two turns: what stands so far, and what the next turn starts from. */
  ghost predicate Going(w: World, qname: Name, qtype: RType, p: Progress, t: Turn) {
    && Sound(w, p.past, qname, p.chain, p.proofs)
    && |p.chain| == |p.hops| && p.answer == Unset && p.shown == NOTHING_SHOWN
    && NextOnPath(qname, p.chain, t.zone, t.parent)
    && WordStands(w, p.past, p.chain, p.proofs, t.zone, t.word, t.src)
    && Staged(w, qname, qtype, p.stages) && NextUp(w, p.stages, t.zone, t.servers, t.word)
    && p.past == PastOf(p.stages) && p.chain == ChainOf(p.stages) && p.hops == HopsOf(p.stages)
  }

  /** A walk that is over: its chain backed, its end explained, its turns in order. */
  ghost predicate Over(w: World, qname: Name, qtype: RType, p: Progress) {
    && Sound(w, p.past, qname, p.chain, p.proofs) && |p.hops| <= |p.chain| <= |p.hops| + 1
    && Ended(w, p.past, p.chain, p.proofs, qname, qtype, p.hops, p.shown, p.answer, p.past.over)
    && Staged(w, qname, qtype, p.stages) && Idle(PastOf(p.stages), p.past)
    && p.chain == ChainOf(p.stages) && p.hops == HopsOf(p.stages)
  }

  lemma WalkBegins(w: World, qname: Name, qtype: RType)
    ensures Going(w, qname, qtype, Progress(Past([], {}, false), [], [], [], NOTHING_SHOWN, Unset, []),
                  Turn([], None, Rotate(w.hints, w.rotation), ParentWord(w.anchors, None), Nothing))
  {
  }

  /** A limit may end a walk between turns. */
  lemma CutIsOver(w: World, qname: Name, qtype: RType, p: Progress, t: Turn)
    requires Going(w, qname, qtype, p, t)
    ensures Over(w, qname, qtype, p.(past := p.past.(over := true)))
  {
    hide LinkStands, NextOnPath, WordStands, Staged, NextUp;
    SoundKept(w, p.past, p.past.(over := true), qname, p.chain, p.proofs);
  }

  /** A turn that leads to a child leaves the walk going. */
  lemma TurnGoesOn(w: World, qname: Name, qtype: RType, p: Progress, t: Turn, s: Stage, p': Progress, src: Source)
    requires Going(w, qname, qtype, p, t) && StageTaken(w, qname, qtype, s) && s.child.Some?
    requires s.zone == t.zone && s.servers == t.servers && s.word == t.word && s.before == p.past && s.chain == p.chain
    requires Sound(w, p'.past, qname, p'.chain, p'.proofs)
    requires |p'.chain| == |p'.hops| && p'.answer == Unset && p'.shown == NOTHING_SHOWN
    requires NextOnPath(qname, p'.chain, s.child.value, Some(s.zone))
    requires WordStands(w, p'.past, p'.chain, p'.proofs, s.child.value, s.word', src)
    requires p'.past == s.after && p'.chain == s.chain' && p'.hops == p.hops + [s.hop] && p'.stages == p.stages + [s]
    ensures Going(w, qname, qtype, p', Turn(s.child.value, Some(s.zone), s.children, s.word', src))
  {
    hide Sound, NextOnPath, WordStands, Staged, NextUp, StageTaken;
    StagedMore(w, qname, qtype, p.stages, s);
  }

  /** A turn that leads nowhere below ends it. */
  lemma TurnEndsWalk(w: World, qname: Name, qtype: RType, p: Progress, t: Turn, s: Stage, p': Progress)
    requires Going(w, qname, qtype, p, t) && StageTaken(w, qname, qtype, s)
    requires s.zone == t.zone && s.servers == t.servers && s.word == t.word && s.before == p.past && s.chain == p.chain
    requires Sound(w, p'.past, qname, p'.chain, p'.proofs) && |p'.hops| <= |p'.chain| <= |p'.hops| + 1
    requires Ended(w, p'.past, p'.chain, p'.proofs, qname, qtype, p'.hops, p'.shown, p'.answer, p'.past.over)
    requires p'.past == s.after && p'.chain == s.chain' && p'.hops == p.hops + [s.hop] && p'.stages == p.stages + [s]
    ensures Over(w, qname, qtype, p')
  {
    hide Sound, NextOnPath, WordStands, Staged, NextUp, StageTaken, Ended;
    StagedMore(w, qname, qtype, p.stages, s);
  }

  lemma GoingMeans(w: World, qname: Name, qtype: RType, p: Progress, t: Turn)
    requires Going(w, qname, qtype, p, t)
    ensures Sound(w, p.past, qname, p.chain, p.proofs)
    ensures |p.chain| == |p.hops| && p.answer == Unset && p.shown == Shown(None, NoError, [], None, false, false)
    ensures NextOnPath(qname, p.chain, t.zone, t.parent)
    ensures WordStands(w, p.past, p.chain, p.proofs, t.zone, t.word, t.src)
  {
    hide Sound, NextOnPath, WordStands, Staged, NextUp;
  }

  lemma OverMeans(w: World, qname: Name, qtype: RType, p: Progress)
    requires Over(w, qname, qtype, p)
    ensures Sound(w, p.past, qname, p.chain, p.proofs) && |p.hops| <= |p.chain| <= |p.hops| + 1
    ensures Ended(w, p.past, p.chain, p.proofs, qname, qtype, p.hops, p.shown, p.answer, p.past.over)
    ensures Staged(w, qname, qtype, p.stages)
    ensures Idle(PastOf(p.stages), p.past) && p.chain == ChainOf(p.stages) && p.hops == HopsOf(p.stages)
  {
    hide Sound, Ended, Staged;
  }

  /** Twelve links and a thirteenth to come take a name of at least twelve labels. */
  lemma DeepEnough(w: World, qname: Name, qtype: RType, p: Progress, t: Turn)
    requires Going(w, qname, qtype, p, t) && |p.hops| >= MAX_DEPTH
    ensures |qname| >= MAX_DEPTH
  {
    hide LinkStands, WordStands, Staged, NextUp;
    SoundDescends(w, p.past, qname, p.chain, p.proofs);
    DepthBoundsChain(qname, p.chain);
  }
}
