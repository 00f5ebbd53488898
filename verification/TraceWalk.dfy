/** The delegation walk itself: one object, updated step by step from the root to the verdict. */
module TraceWalk {
  import opened Basics
  import opened DnsRecords
  import opened TraceChecks
  import opened TraceRounds
  import opened TraceEvidence
  import opened TraceVerdict
  import opened TraceTurns

  class Walk {
    const world: World
    const qname: Name
    const qtype: RType
    var hops: seq<Hop>
    var chain: seq<Link>
    var shown: Shown
    var truncated: bool
    var queries: nat
    var dead: set<Ip>
    var answer: AnswerState
    var clock: nat
    var asks: nat
    ghost var log: seq<Exchange>
    ghost var proofs: seq<Proof>

    /** The log is what the world said, every entry was paid for, and only the budget, a deadline already seen or a name
        of twelve labels cuts a walk short. */
    ghost predicate Valid()
      reads this`log, this`asks, this`queries, this`truncated, this`clock
    {
      && LogFits(world, log) && RoutableOnly(world, log)
      && asks == |log| <= queries <= MAX_QUERIES
      && (truncated ==> queries == MAX_QUERIES || TimedOut(world, clock) || |qname| >= MAX_DEPTH)
    }

    lemma Budget()
      requires Valid()
      ensures LogFits(world, log) && RoutableOnly(world, log) && |log| <= queries <= MAX_QUERIES
      ensures truncated ==> queries == MAX_QUERIES || TimedOut(world, clock) || |qname| >= MAX_DEPTH
    {
      hide LogFits, RoutableOnly, TimedOut;
    }

    constructor (w: World, qname: Name, qtype: RType)
      ensures Valid() && world == w && this.qname == qname && this.qtype == qtype
      ensures log == [] && dead == {} && queries == 0 && hops == [] && chain == [] && proofs == []
      ensures shown == Shown(None, NoError, [], None, false, false) && answer == Unset && !truncated
    {
      world, this.qname, this.qtype := w, qname, qtype;
      hops, chain, shown := [], [], Shown(None, NoError, [], None, false, false);
      truncated, queries, dead, answer, clock, asks, log, proofs := false, 0, {}, Unset, 0, 0, [], [];
    }

    /** Reads the clock. */
    method Expired() returns (b: bool)
      modifies this`clock
      ensures clock == old(clock) + 1 && b == world.expired(old(clock))
    {
      b := world.expired(clock);
      clock := clock + 1;
    }

    /** Charges one query, or marks the walk truncated. */
    method Spend() returns (ok: bool)
      requires Valid()
      modifies this`clock, this`queries, this`truncated
      ensures Valid() && clock == old(clock) + 1
      ensures ok <==> !world.expired(old(clock)) && old(queries) < MAX_QUERIES
      ensures queries == old(queries) + (if ok then 1 else 0)
      ensures truncated <==> old(truncated) || !ok
    {
      var over := Expired();
      if over || queries >= MAX_QUERIES {
        truncated := true;
        return false;
      }
      queries := queries + 1;
      return true;
    }

    method LiveFirst(servers: seq<Server>) returns (r: seq<Server>)
      ensures r == LiveFirstOf(world, dead, servers) && |r| == |servers|
      ensures forall i, j :: 0 <= i < j < |r| ==>
        AddressOf(world, r[i]).Some? && AddressOf(world, r[i]).value in dead ==>
        AddressOf(world, r[j]).Some? && AddressOf(world, r[j]).value in dead
    {
      var live, quiet: seq<Server> := [], [];
      for i := 0 to |servers|
        invariant live == Sift(world, dead, servers[..i], false)
        invariant quiet == Sift(world, dead, servers[..i], true)
      {
        assert servers[..i + 1] == servers[..i] + [servers[i]];
        SiftSnoc(world, dead, servers[..i], servers[i], false);
        SiftSnoc(world, dead, servers[..i], servers[i], true);
        if IsDead(world, dead, servers[i]) {
          quiet := quiet + [servers[i]];
        } else {
          live := live + [servers[i]];
        }
      }
      assert servers[..|servers|] == servers;
      LiveFirstPermutes(world, dead, servers);
      LiveFirstOrders(world, dead, servers);
      return live + quiet;
    }

    /** Asks at most three servers, live ones first, and stops at the first usable reply. */
    method Query(servers: seq<Server>, name: Name, t: RType, final: bool)
      returns (r: Option<Msg>, server: Option<Server>, ghost src: Source)
      requires Valid()
      modifies this`truncated, this`queries, this`dead, this`clock, this`asks, this`log
      ensures Valid() && Grows(old(Past(log, dead, truncated)), Past(log, dead, truncated))
      ensures Consulted(world, servers, name, t, final, old(Past(log, dead, truncated)), Past(log, dead, truncated), r)
      ensures queries - old(queries) == |log| - |old(log)| <= 3
      ensures r.Some? ==>
        && |log| > 0 && Answered(log, |log| - 1, name, t, final) && log[|log|-1].ask == Reply(r.value)
        && server.Some? && server.value in servers && AddressOf(world, server.value) == Some(log[|log|-1].ip)
      ensures !final ==> Learnt(world, Past(log, dead, truncated), name, t, r, src)
    {
      hide Round, CutRound, Silent, AddressOf, LiveFirstOf, LogFits, RoutableOnly, TimedOut;
      var sorted := LiveFirst(servers);
      var n := if |servers| < MAX_SERVERS_PER_HOP then |servers| else MAX_SERVERS_PER_HOP;
      var turns := sorted[..n];
      ghost var whole;
      r, server, whole := AskEach(turns, name, t, final);
      assert turns == Turns(world, old(dead), servers);
      assert Asked(world, Turns(world, old(dead), servers), name, t, final, old(Past(log, dead, truncated)),
                   Past(log, dead, truncated), r, whole);
      if r.Some? {
        src := At(|log| - 1);
        AskedIsAnswer(world, turns, name, t, final, old(Past(log, dead, truncated)), Past(log, dead, truncated), r,
                      whole);
        TurnsAreServers(world, old(dead), servers);
      } else {
        src := Unheard(turns, |old(log)|, |log|);
        if !final {
          ConsultedSilent(world, servers, name, t, old(Past(log, dead, truncated)), Past(log, dead, truncated));
        }
      }
    }

    method AskEach(turns: seq<Server>, name: Name, t: RType, final: bool)
      returns (r: Option<Msg>, server: Option<Server>, ghost whole: bool)
      requires Valid()
      modifies this`truncated, this`queries, this`dead, this`clock, this`asks, this`log
      ensures Valid()
      ensures Asked(world, turns, name, t, final, old(Past(log, dead, truncated)), Past(log, dead, truncated), r, whole)
      ensures queries - old(queries) == |log| - |old(log)|
      ensures r.Some? ==>
        |log| > 0 && server.Some? && server.value in turns && AddressOf(world, server.value) == Some(log[|log|-1].ip)
    {
      hide Asked, AddressOf, LogFits, RoutableOnly, TimedOut;
      r, server := None, None;
      assert turns[..0] == [];
      NobodyAsked(world, name, t, final, Past(log, dead, truncated));
      var i, reached := 0, true;
      while i < |turns| && r == None && reached
        invariant Valid() && i <= |turns|
        invariant Asked(world, turns[..i], name, t, final, old(Past(log, dead, truncated)), Past(log, dead, truncated),
                        r, reached)
        invariant queries - old(queries) == |log| - |old(log)|
        invariant r.Some? ==>
          |log| > 0 && server.Some? && server.value in turns && AddressOf(world, server.value) == Some(log[|log|-1].ip)
      {
        ghost var p := Past(log, dead, truncated);
        reached, r := Try(turns[i], name, t, final);
        AskedMore(world, turns, i, name, t, final, old(Past(log, dead, truncated)), p, Past(log, dead, truncated), r,
                  reached);
        if r.Some? {
          server := Some(turns[i]);
        }
        i := i + 1;
      }
      AskedEnough(world, turns, i, name, t, final, old(Past(log, dead, truncated)), Past(log, dead, truncated), r,
                  reached);
      whole := reached;
    }

    /** One server's turn: skipped without an address, otherwise paid for and asked. */
    method Try(s: Server, name: Name, t: RType, final: bool) returns (reached: bool, r: Option<Msg>)
      requires Valid()
      modifies this`truncated, this`queries, this`dead, this`clock, this`asks, this`log
      ensures Valid()
      ensures Asked(world, [s], name, t, final, old(Past(log, dead, truncated)), Past(log, dead, truncated), r, reached)
      ensures queries - old(queries) == |log| - |old(log)|
      ensures r.Some? ==> |log| > 0 && AddressOf(world, s) == Some(log[|log|-1].ip)
    {
      hide Asked, LogFits, RoutableOnly, TimedOut;
      var address := AddressOf(world, s);
      if address.None? {
        NotAsked(world, s, name, t, final, Past(log, dead, truncated), Past(log, dead, truncated), true);
        return true, None;
      }
      var ok := Spend();
      if !ok {
        NotAsked(world, s, name, t, final, old(Past(log, dead, truncated)), Past(log, dead, truncated), false);
        return false, None;
      }
      var ask := world.reply(asks, address.value, name, t);
      LogMore(world, log, Exchange(address.value, name, t, ask));
      log := log + [Exchange(address.value, name, t, ask)];
      asks := asks + 1;
      reached, r := true, None;
      match ask {
        case Silence =>
          dead := dead + {address.value};
        case Reply(m) =>
          if m.truncated {
          } else if m.rcode != NoError && (!final || m.rcode != NxDomain) {
          } else if !final && !m.authoritative {
          } else {
            r := Some(m);
          }
      }
      OneAsked(world, s, name, t, final, old(Past(log, dead, truncated)), Past(log, dead, truncated), r);
    }

    /** What the servers of the link above say about a child: keys only if that link is secure. */
    method FetchDs(child: Name, servers: seq<Server>, keys: Option<seq<Key>>)
      returns (word: ParentWord, ghost src: Source)
      requires Valid() && KeysCurrent(chain, proofs, keys)
      modifies this`truncated, this`queries, this`dead, this`clock, this`asks, this`log
      ensures Valid() && Grows(old(Past(log, dead, truncated)), Past(log, dead, truncated))
      ensures queries <= old(queries) + MAX_SERVERS_PER_HOP
      ensures WordStands(world, Past(log, dead, truncated), chain, proofs, child, word, src)
      ensures chain != [] && DsAsked(world, servers, child, keys, chain[|chain|-1].status, word,
                                     old(Past(log, dead, truncated)), Past(log, dead, truncated))
    {
      hide Consulted, Silent, LogFits, RoutableOnly, TimedOut;
      if keys.None? {
        if chain[|chain|-1].status == Indeterminate {
          return ParentWord([], Some(Indeterminate)), Nothing;
        }
        return ParentWord([], Some(Insecure)), Nothing;
      }
      var r, server;
      r, server, src := Query(servers, child, TypeDS, false);
      if r.None? {
        return ParentWord([], Some(Indeterminate)), src;
      }
      word := JudgeDs(world.crypto, r.value, child, keys.value);
    }

    /** Judges one zone's key set by the parent's word. */
    method ValidateZone(zone: Name, parent: Option<Name>, servers: seq<Server>, word: ParentWord)
      returns (link: Link, keys: Option<seq<Key>>, ghost src: Source)
      requires Valid()
      modifies this`truncated, this`queries, this`dead, this`clock, this`asks, this`log
      ensures Valid() && Grows(old(Past(log, dead, truncated)), Past(log, dead, truncated))
      ensures queries <= old(queries) + MAX_SERVERS_PER_HOP
      ensures link.zone == zone && link.parent == parent
      ensures LinkJudged(world, Past(log, dead, truncated), word, link, keys, src)
      ensures ZoneAsked(world, servers, word, link, keys, old(Past(log, dead, truncated)), Past(log, dead, truncated))
    {
      hide Consulted, Learnt, KeysJudged, LinkFilled, LogFits, RoutableOnly, TimedOut;
      if word.status.Some? {
        return Link(zone, parent, word.status.value, DsTags(word.ds), [], None, false), None, Nothing;
      }
      var r, server;
      r, server, src := Query(servers, zone, TypeDNSKEY, false);
      link, keys := JudgeKeys(world.crypto, zone, parent, r, word.ds);
    }

    /** Judges one zone and adds its link to the chain. */
    method AddLink(zone: Name, parent: Option<Name>, servers: seq<Server>, word: ParentWord, ghost src: Source)
      returns (keys: Option<seq<Key>>)
      requires Valid() && NextOnPath(qname, chain, zone, parent)
      requires Sound(world, Past(log, dead, truncated), qname, chain, proofs)
      requires WordStands(world, Past(log, dead, truncated), chain, proofs, zone, word, src)
      modifies this`truncated, this`queries, this`dead, this`clock, this`asks, this`log, this`chain, this`proofs
      ensures Valid() && Grows(old(Past(log, dead, truncated)), Past(log, dead, truncated))
      ensures queries <= old(queries) + MAX_SERVERS_PER_HOP
      ensures Sound(world, Past(log, dead, truncated), qname, chain, proofs) && KeysCurrent(chain, proofs, keys)
      ensures |chain| == |old(chain)| + 1 && chain == old(chain) + [chain[|chain|-1]]
      ensures chain[|chain|-1].zone == zone && chain[|chain|-1].parent == parent
      ensures ZoneAsked(world, servers, word, chain[|chain|-1], keys,
                        old(Past(log, dead, truncated)), Past(log, dead, truncated))
    {
      hide ZoneAsked, Sound, WordStands, KeysCurrent, NextOnPath, LinkJudged, LogFits, RoutableOnly, TimedOut;
      var link;
      ghost var keysSrc;
      link, keys, keysSrc := ValidateZone(zone, parent, servers, word);
      SoundKept(world, old(Past(log, dead, truncated)), Past(log, dead, truncated), qname, chain, proofs);
      WordKept(world, old(Past(log, dead, truncated)), Past(log, dead, truncated), chain, proofs, zone, word, src);
      ghost var proof := JudgedLinkStands(world, Past(log, dead, truncated), chain, proofs, word, src, qname, link,
                                          keys, keysSrc);
      chain, proofs := chain + [link], proofs + [proof];
    }

    /** Asks a zone's servers the walk's own question. */
    method AskZone(zone: Name, servers: seq<Server>) returns (hop: Hop, resp: Option<Msg>)
      requires Valid()
      modifies this`truncated, this`queries, this`dead, this`clock, this`asks, this`log
      ensures Valid() && Grows(old(Past(log, dead, truncated)), Past(log, dead, truncated))
      ensures queries <= old(queries) + MAX_SERVERS_PER_HOP
      ensures HopRecorded(world, zone, servers, log, resp, hop)
      ensures resp.Some? ==>
        |log| > 0 && Answered(log, |log| - 1, qname, qtype, true) && log[|log|-1].ask == Reply(resp.value)
      ensures Consulted(world, servers, qname, qtype, true,
                        old(Past(log, dead, truncated)), Past(log, dead, truncated), resp)
    {
      hide Consulted, Answered, AddressOf, LogFits, RoutableOnly, TimedOut;
      var server;
      ghost var src;
      resp, server, src := Query(servers, qname, qtype, true);
      hop := BlankHop(zone);
      if resp.None? {
        return hop.(failed := true), None;
      }
      var named := Nameservers(resp.value.answer + resp.value.ns);
      var glue := GlueOf(resp.value.extra);
      hop := hop.(server := server, rcode := Some(resp.value.rcode), authoritative := resp.value.authoritative,
                  nameservers := multiset(named), glue := multiset(glue));
    }

    method Nameservers(rrs: seq<RR>) returns (named: seq<Name>)
      ensures named == HostsNamed(rrs)
    {
      named := [];
      for i := 0 to |rrs|
        invariant named == HostsNamed(rrs[..i])
      {
        assert rrs[..i + 1][..i] == rrs[..i];
        if rrs[i].data.NameServer? {
          named := named + [rrs[i].data.host];
        }
      }
      assert rrs[..|rrs|] == rrs;
    }

    method GlueOf(rrs: seq<RR>) returns (glue: seq<Ip>)
      ensures glue == AddressesHeld(rrs)
    {
      glue := [];
      for i := 0 to |rrs|
        invariant glue == AddressesHeld(rrs[..i])
      {
        assert rrs[..i + 1][..i] == rrs[..i];
        if rrs[i].data.AddressV4? || rrs[i].data.AddressV6? {
          glue := glue + [rrs[i].data.ip];
        }
      }
      assert rrs[..|rrs|] == rrs;
    }

    /** Servers for a referral's nameservers: glue first, then at most two side lookups, two queries each. */
    method ResolveServers(hop: Hop, resp: Msg, child: Name, hosts: seq<Name>) returns (servers: seq<Server>, hop': Hop)
      requires Valid()
      modifies this`truncated, this`queries, this`clock
      ensures Valid() && queries <= old(queries) + 2 * MAX_SIDE_LOOKUPS && (old(truncated) ==> truncated)
      ensures ServersTaken(world, resp.extra, child, hosts, hop, hop', servers, truncated)
      ensures hop' == hop.(glueMissing := hop'.glueMissing, sideLookups := hop'.sideLookups)
    {
      hide LogFits, RoutableOnly, TimedOut, HasGlue, ToppedUp;
      servers, hop' := [], hop;
      var glueless: seq<Name> := [];
      for i := 0 to |hosts|
        invariant servers == Glued(world, resp.extra, hosts[..i])
        invariant glueless == Glueless(world, resp.extra, hosts[..i])
        invariant hop' == hop.(glueMissing := hop'.glueMissing)
        invariant hop'.glueMissing <==>
          hop.glueMissing || exists j :: 0 <= j < i && child <= hosts[j] && !HasGlue(world, resp.extra, hosts[j])
      {
        assert hosts[..i + 1][..i] == hosts[..i];
        if HasGlue(world, resp.extra, hosts[i]) {
          servers := servers + [GlueServer(world, resp.extra, hosts[i])];
          continue;
        }
        hop' := hop'.(glueMissing := hop'.glueMissing || IsSubDomain(child, hosts[i]));
        glueless := glueless + [hosts[i]];
      }
      hide Glued, Glueless, Found, NamesOf;
      assert hosts[..|hosts|] == hosts;
      servers := Rotate(servers, world.rotation);
      ghost var times;
      servers, hop', times := SideLookups(servers, hop', glueless);
    }

    /** Tops up to three servers from side lookups, two queries each. */
    method SideLookups(glued: seq<Server>, hop: Hop, glueless: seq<Name>)
      returns (servers: seq<Server>, hop': Hop, ghost times: seq<nat>)
      requires Valid()
      modifies this`truncated, this`queries, this`clock
      ensures Valid() && (old(truncated) ==> truncated)
      ensures ToppedUp(world, glued, glueless, times, servers, truncated)
      ensures hop' == hop.(sideLookups := hop.sideLookups + NamesOf(Found(world, times, glueless)))
      ensures queries == old(queries) + 2 * |times| || (truncated && queries == old(queries) + 2 * |times| + 1)
      ensures queries <= old(queries) + 2 * MAX_SIDE_LOOKUPS
    {
      hide LogFits, RoutableOnly, TimedOut, Found, NamesOf, ToppingUp, ToppedUp;
      servers, hop', times := glued, hop, [];
      ghost var looked: seq<Name> := [];
      ToppingBegins(world, glued, glueless);
      for i := 0 to |glueless|
        invariant Valid() && truncated == old(truncated) && |times| == i <= MAX_SIDE_LOOKUPS
        invariant queries == old(queries) + 2 * i
        invariant ToppingUp(world, glued, glueless, times, servers) && looked == NamesOf(Found(world, times, glueless))
        invariant hop' == hop.(sideLookups := hop.sideLookups + looked)
      {
        if |servers| >= MAX_SERVERS_PER_HOP || i >= MAX_SIDE_LOOKUPS {
          break;
        }
        var ok := Spend();
        if !ok {
          break;
        }
        ok := Spend();
        if !ok {
          break;
        }
        var ip := world.lookup(clock, glueless[i]);
        ToppingMore(world, glued, glueless, times, servers, clock);
        times := times + [clock];
        if ip != "" {
          looked := looked + [glueless[i]];
          hop' := hop'.(sideLookups := hop'.sideLookups + [glueless[i]]);
          servers := servers + [Server(glueless[i], ip, "")];
        }
      }
      IsToppedUp(world, glued, glueless, times, servers, truncated);
    }

    /** Records the authoritative answer and judges the records the walk will show. */
    method Finish(zone: Name, resp: Msg, keys: Option<seq<Key>>)
      requires shown == Shown(None, NoError, [], None, false, false)
      modifies this`shown, this`answer
      ensures AnswerJudged(world.crypto, resp, qname, qtype, zone, keys, shown, answer) && shown.zone == Some(zone)
    {
      shown := shown.(zone := Some(zone), rcode := resp.rcode);
      var owners := Show(resp.answer);
      var covered := qtype;
      OwnersEmptyIff(shown.records);
      if |owners| == 0 && shown.cname != None {
        covered, owners := TypeCNAME, [qname];
      }
      if |owners| == 0 {
        answer := NoAnswer;
        return;
      } else if keys == None {
        answer := Unchecked;
        return;
      }
      Judge(resp.answer, owners, covered, keys.value, zone);
    }

    /** Copies out the records asked for and the first alias. */
    method Show(rrs: seq<RR>) returns (owners: seq<Name>)
      requires shown.records == [] && shown.cname == None
      modifies this`shown
      ensures shown == old(shown).(records := OfType(rrs, qtype), cname := ShownAlias(rrs, qtype))
      ensures owners == Owners(shown.records)
    {
      owners := [];
      for i := 0 to |rrs|
        invariant shown == old(shown).(records := OfType(rrs[..i], qtype), cname := ShownAlias(rrs[..i], qtype))
        invariant owners == Owners(shown.records)
      {
        var rr := rrs[i];
        ShowStep(rrs, i, qtype);
        if rr.Type() == qtype {
          shown := shown.(records := shown.records + [rr]);
          if rr.owner !in owners {
            owners := owners + [rr.owner];
          }
        } else if rr.Type() == TypeCNAME && qtype != TypeCNAME && shown.cname == None {
          shown := shown.(cname := Some(rr));
        }
      }
      assert rrs[..|rrs|] == rrs;
    }

    /** Checks the signature over each RRset shown. */
    method Judge(rrs: seq<RR>, owners: seq<Name>, covered: RType, keys: seq<Key>, zone: Name)
      modifies this`shown, this`answer
      ensures shown == old(shown).(signed := shown.signed, verified := answer == Verified)
      ensures StateDecided(world.crypto, rrs, owners, covered, keys, zone, answer)
      ensures shown.signed <==>
        forall o :: o in owners ==> RRsetState(world.crypto, rrs, o, covered, keys, zone) != Unsigned
    {
      answer := Verified;
      shown := shown.(signed := true);
      for i := 0 to |owners|
        invariant shown == old(shown).(signed := shown.signed)
        invariant shown.signed <==>
          forall o :: o in owners[..i] ==> RRsetState(world.crypto, rrs, o, covered, keys, zone) != Unsigned
        invariant StateDecided(world.crypto, rrs, owners[..i], covered, keys, zone, answer)
      {
        assert owners[..i + 1] == owners[..i] + [owners[i]];
        var state := VerifyRRset(world.crypto, rrs, owners[i], covered, keys, zone);
        shown := shown.(signed := shown.signed && state != Unsigned);
        StateDecidedSnoc(world.crypto, rrs, owners[..i], owners[i], covered, keys, zone, answer);
        if answer == Verified {
          answer := state;
        }
      }
      assert owners[..|owners|] == owners;
      shown := shown.(verified := answer == Verified);
    }

    /** Ends the walk on an authoritative answer, under the zone that owns it. */
    method Conclude(zone: Name, servers: seq<Server>, resp: Msg, keys: Option<seq<Key>>, ghost at: nat)
      requires Valid() && Sound(world, Past(log, dead, truncated), qname, chain, proofs)
      requires KeysCurrent(chain, proofs, keys)
      requires chain != [] && chain[|chain|-1].zone == zone && 0 < |hops|
      requires Answered(log, at, qname, qtype, true) && log[at].ask == Reply(resp) && resp.authoritative
      requires shown == Shown(None, NoError, [], None, false, false)
      modifies this
      ensures Valid() && Sound(world, Past(log, dead, truncated), qname, chain, proofs)
      ensures |old(chain)| <= |chain| <= |old(chain)| + 1 && |hops| == |old(hops)| && answer != Unset
      ensures AnswerStands(world, Past(log, dead, truncated), chain, proofs, qname, qtype, shown, answer, at)
      ensures at < |log| && log[at].ask == Reply(resp)
      ensures shown.zone.Some? && OwnerFound(resp, zone, qname, shown.zone.value)
      ensures hops == old(hops)[|hops|-1 := old(hops[|hops|-1]).(zoneCut := hops[|hops|-1].zoneCut)]
      ensures ShallowestNamed(resp.answer + resp.ns, zone, qname, hops[|hops|-1].zoneCut)
      ensures CutJudged(world, servers, zone, hops[|hops|-1].zoneCut, keys,
                        old(chain), old(Past(log, dead, truncated)), chain, Past(log, dead, truncated))
    {
      hide *;
      var owner, ownerKeys := zone, keys;
      ghost var p := Past(log, dead, truncated);
      GrowsFrom(p);
      var cut := AnswerZone(resp, qname, zone);
      hops := hops[|hops|-1 := hops[|hops|-1].(zoneCut := cut)];
      if cut.Some? {
        owner := cut.value;
        var word, src := FetchDs(owner, servers, keys);
        ghost var p1 := Past(log, dead, truncated);
        SoundKept(world, p, p1, qname, chain, proofs);
        BelowLast(qname, chain, owner);
        ownerKeys := AddLink(owner, Some(zone), servers, word, src);
        CutIsJudged(world, servers, zone, owner, keys, old(chain), p, word, p1, chain[|chain|-1], ownerKeys,
                    Past(log, dead, truncated));
        GrowsOn(p, p1, Past(log, dead, truncated));
      } else {
        NoCutIsJudged(world, servers, zone, keys, chain, Past(log, dead, truncated));
      }
      OwnerIsFound(resp, zone, qname, cut);
      Finish(owner, resp, ownerKeys);
      AnswerConcluded(world, p, Past(log, dead, truncated), chain, proofs, qname, qtype,
                      ownerKeys, shown, answer, at);
    }

    /** Follows a referral: the child's DS set first, then addresses for its nameservers. */
    method Descend(zone: Name, servers: seq<Server>, resp: Msg, keys: Option<seq<Key>>, ghost start: Stage)
      returns (child: Option<Name>, children: seq<Server>, word: ParentWord, ghost src: Source)
      requires Valid() && Sound(world, Past(log, dead, truncated), qname, chain, proofs)
      requires KeysCurrent(chain, proofs, keys)
      requires chain != [] && chain[|chain|-1].zone == zone && 0 < |hops|
      requires hops[|hops|-1].referral == None && !hops[|hops|-1].failed
      requires start.zone == zone && start.servers == servers && start.link == chain[|chain|-1]
      modifies this`truncated, this`queries, this`dead, this`clock, this`asks, this`log, this`hops
      ensures Valid() && Sound(world, Past(log, dead, truncated), qname, chain, proofs)
      ensures |hops| == |old(hops)| && hops == old(hops)[|hops|-1 := hops[|hops|-1]]
      ensures child.Some? ==>
        && NextOnPath(qname, chain, child.value, Some(zone))
        && WordStands(world, Past(log, dead, truncated), chain, proofs, child.value, word, src)
      ensures Referred(world, qname,
                       start.(after := Past(log, dead, truncated), hop := hops[|hops|-1], child := child,
                              children := children, word' := word),
                       resp, keys, old(Past(log, dead, truncated)), old(hops[|hops|-1]))
    {
      hide *;
      child, children, word, src := None, [], ParentWord([], None), Nothing;
      ghost var p := Past(log, dead, truncated);
      var referral, hosts := Referral(resp, zone, qname);
      var hop := hops[|hops|-1];
      if referral.None? {
        NotReferred(world, qname, start.(after := p, hop := hop, child := child, children := children, word' := word),
                    resp, keys, hosts);
        return;
      }
      word, src := FetchDs(referral.value, servers, keys);
      ghost var p1 := Past(log, dead, truncated);
      BelowLast(qname, chain, referral.value);
      children, hop := ResolveServers(hop.(referral := referral), resp, referral.value, world.sorted(hosts));
      ghost var p2 := Past(log, dead, truncated);
      IdleGrows(p, p1, p2);
      SoundKept(world, p, p2, qname, chain, proofs);
      WordKept(world, p1, p2, chain, proofs, referral.value, word, src);
      ghost var taken := hop;
      hop := hop.(failed := |children| == 0);
      hops := hops[|hops|-1 := hop];
      if |children| != 0 {
        child := referral;
      }
      ghost var s := start.(after := p2, hop := hop, child := child, children := children, word' := word);
      FailedTaken(world, resp.extra, referral.value, world.sorted(hosts), old(hops[|hops|-1]).(referral := referral),
                  taken, children, truncated, |children| == 0);
      IsReferred(world, qname, s, resp, keys, p, p1, old(hops[|hops|-1]), hosts);
    }

    /** One zone's turn: its link, its servers' reply, and where that leads. */
    method Visit(zone: Name, parent: Option<Name>, servers: seq<Server>, word: ParentWord, ghost src: Source)
      returns (child: Option<Name>, children: seq<Server>, word': ParentWord, ghost src': Source, ghost stage: Stage)
      requires Valid() && NextOnPath(qname, chain, zone, parent)
      requires Sound(world, Past(log, dead, truncated), qname, chain, proofs)
      requires WordStands(world, Past(log, dead, truncated), chain, proofs, zone, word, src)
      requires |chain| == |hops| && answer == Unset && shown == Shown(None, NoError, [], None, false, false)
      modifies this
      ensures Valid() && Sound(world, Past(log, dead, truncated), qname, chain, proofs)
      ensures |hops| == |old(hops)| + 1 && |hops| <= |chain| <= |hops| + 1
      ensures child.Some? ==>
        && |chain| == |hops| && answer == Unset && shown == old(shown)
        && NextOnPath(qname, chain, child.value, Some(zone))
        && WordStands(world, Past(log, dead, truncated), chain, proofs, child.value, word', src')
      ensures child == None ==>
        Ended(world, Past(log, dead, truncated), chain, proofs, qname, qtype, hops, shown, answer, truncated)
      ensures StageTaken(world, qname, qtype, stage) && hops == old(hops) + [stage.hop]
      ensures stage == Stage(zone, servers, word, stage.link, old(Past(log, dead, truncated)), old(chain),
                             Past(log, dead, truncated), chain, stage.hop, child, children, word')
    {
      hide *;
      child, children, word', src' := None, [], word, Nothing;
      ghost var p := Past(log, dead, truncated);
      var keys := AddLink(zone, parent, servers, word, src);
      ghost var p1, link := Past(log, dead, truncated), chain[|chain|-1];
      var hop, resp := AskZone(zone, servers);
      ghost var p2 := Past(log, dead, truncated);
      SoundKept(world, p1, p2, qname, chain, proofs);
      hops := hops + [hop];
      stage := Stage(zone, servers, word, link, p, old(chain), p2, chain, hop, child, children, word');
      HopFits(world, zone, servers, log, resp, hop);
      if resp.Some? {
        if resp.value.authoritative {
          ghost var at := |log| - 1;
          Conclude(zone, servers, resp.value, keys, at);
          EndedAnswered(world, Past(log, dead, truncated), chain, proofs, qname, qtype, hops, shown, answer, at);
        } else {
          child, children, word', src' := Descend(zone, servers, resp.value, keys, stage);
        }
      }
      stage := Stage(zone, servers, word, link, p, old(chain), Past(log, dead, truncated), chain, hops[|hops|-1], child,
                     children, word');
      StageDone(world, qname, qtype, stage, keys, resp, p1, p2, hop);
      if child == None && answer == Unset {
        TurnStops(world, qname, stage, servers, p2.log, keys, resp, p2, hop);
        EndedStuck(world, Past(log, dead, truncated), chain, proofs, qname, qtype, hops, shown);
      }
    }

    /** A limit ends a walk that was still going. */
    method CutShort(ghost turn: Turn, ghost stages: seq<Stage>)
      requires Valid() && (TimedOut(world, clock) || |qname| >= MAX_DEPTH)
      requires Going(world, qname, qtype,
                     Progress(Past(log, dead, truncated), chain, proofs, hops, shown, answer, stages), turn)
      modifies this`truncated
      ensures Valid() && truncated
      ensures Over(world, qname, qtype,
                   Progress(Past(log, dead, truncated), chain, proofs, hops, shown, answer, stages))
    {
      hide Sound, NextOnPath, WordStands, Staged, NextUp, LogFits, RoutableOnly, TimedOut, Going, Over;
      CutIsOver(world, qname, qtype,
                Progress(Past(log, dead, truncated), chain, proofs, hops, shown, answer, stages), turn);
      truncated := true;
    }

    /** A turn of a walk still going: it goes on below, or is over. */
    method Step(zone: Name, parent: Option<Name>, servers: seq<Server>, word: ParentWord, ghost src: Source,
                ghost stages: seq<Stage>)
      returns (child: Option<Name>, children: seq<Server>, word': ParentWord, ghost src': Source,
               ghost stages': seq<Stage>)
      requires Valid()
      requires Going(world, qname, qtype,
                     Progress(Past(log, dead, truncated), chain, proofs, hops, shown, answer, stages),
                     Turn(zone, parent, servers, word, src))
      modifies this
      ensures Valid() && (child.Some? ==> |hops| == |old(hops)| + 1)
      ensures child.Some? ==>
        Going(world, qname, qtype,
              Progress(Past(log, dead, truncated), chain, proofs, hops, shown, answer, stages'),
              Turn(child.value, Some(zone), children, word', src'))
      ensures child == None ==>
        Over(world, qname, qtype,
             Progress(Past(log, dead, truncated), chain, proofs, hops, shown, answer, stages'))
    {
      ghost var p := Progress(Past(log, dead, truncated), chain, proofs, hops, shown, answer, stages);
      ghost var turn := Turn(zone, parent, servers, word, src);
      assert NOTHING_SHOWN == Shown(None, NoError, [], None, false, false);
      var over := ReadClock();
      hide *;
      if over {
        child, children, word', src', stages' := None, [], word, Nothing, stages;
        CutShort(turn, stages);
        return;
      }
      GoingMeans(world, qname, qtype, p, turn);
      ghost var stage;
      child, children, word', src', stage := Visit(zone, parent, servers, word, src);
      stages' := stages + [stage];
      ghost var p' := Progress(Past(log, dead, truncated), chain, proofs, hops, shown, answer, stages');
      if child.Some? {
        TurnGoesOn(world, qname, qtype, p, turn, stage, p', src');
      } else {
        TurnEndsWalk(world, qname, qtype, p, turn, stage, p');
      }
    }

    /** Reads the clock, and knows a deadline seen. */
    method ReadClock() returns (b: bool)
      requires Valid()
      modifies this`clock
      ensures Valid() && clock == old(clock) + 1 && b == world.expired(old(clock))
      ensures b ==> TimedOut(world, clock)
    {
      b := Expired();
    }

    /** Walks the delegations, one zone a turn, until an answer, a dead end or a limit. */
    method Run() returns (ghost stages: seq<Stage>)
      requires Valid() && hops == [] && chain == [] && proofs == [] && answer == Unset && log == [] && dead == {}
      requires shown == NOTHING_SHOWN && !truncated
      modifies this
      ensures Valid()
      ensures Over(world, qname, qtype,
                   Progress(Past(log, dead, truncated), chain, proofs, hops, shown, answer, stages))
    {
      assert MAX_DEPTH == 12;
      WalkBegins(world, qname, qtype);
      hide *;
      var servers := Rotate(world.hints, world.rotation);
      var zone: Name, parent: Option<Name>, word := [], None, ParentWord(world.anchors, None);
      ghost var src: Source := Nothing;
      stages := [];
      for depth := 0 to MAX_DEPTH
        invariant Valid() && |hops| == depth
        invariant Going(world, qname, qtype,
                        Progress(Past(log, dead, truncated), chain, proofs, hops, shown, answer, stages),
                        Turn(zone, parent, servers, word, src))
      {
        var child, children;
        child, children, word, src, stages := Step(zone, parent, servers, word, src, stages);
        if child.None? {
          return;
        }
        zone, parent, servers := child.value, Some(zone), children;
      }
      ghost var turn := Turn(zone, parent, servers, word, src);
      DeepEnough(world, qname, qtype,
                 Progress(Past(log, dead, truncated), chain, proofs, hops, shown, answer, stages), turn);
      CutShort(turn, stages);
    }
  }

  /** Everything a finished walk promises, whatever the servers said. */
  ghost predicate Guaranteed(w: World, out: Trace, past: Past, proofs: seq<Proof>, k: nat) {
    && LogFits(w, past.log) && RoutableOnly(w, past.log)
    && |past.log| <= out.queries <= 48 && (past.over <==> out.truncated)
    && AllStand(w, past, out.chain, proofs)
    && Shaped(out.chain, k)
    && Descends(out.qname, out.chain)
    && |out.hops| <= |out.chain| <= |out.hops| + 1
    && (exists state :: VerdictGiven(out.chain, out.shown, out.truncated, state, out.dnssec)
          && Ended(w, past, out.chain, proofs, out.qname, out.qtype, out.hops, out.shown, state, out.truncated))
    && (out.dnssec == Secure ==> Trusted(w, past, out, proofs))
    && (out.dnssec == Bogus ==> Refuted(w, past, out, proofs))
    && (out.dnssec == Insecure ==> Unvouched(w, past, out, proofs))
    && (out.dnssec == Indeterminate ==> Unsettled(w, past, out, proofs))
    && (out.truncated ==> out.dnssec == Bogus || out.dnssec == Indeterminate)
    && CutOnlyBy(w, out)
  }

  /** What may cut a walk short: the budget used up, a reading of the clock past the deadline, or a name of twelve
      labels; a name of at most ten never uses up the turns. */
  ghost predicate CutOnlyBy(w: World, out: Trace) {
    && (out.truncated ==> out.queries == 48 || TimedOut(w, out.readings) || |out.qname| >= 12)
    && (|out.qname| <= 10 ==> |out.hops| < 12)
    && (|out.qname| <= 10 && out.truncated ==> out.queries == 48 || TimedOut(w, out.readings))
  }

  lemma WalkGuarantees(w: World, out: Trace, past: Past, proofs: seq<Proof>, state: AnswerState) returns (k: nat)
    requires LogFits(w, past.log) && RoutableOnly(w, past.log)
    requires |past.log| <= out.queries <= MAX_QUERIES && (past.over <==> out.truncated)
    requires Sound(w, past, out.qname, out.chain, proofs) && |out.hops| <= |out.chain| <= |out.hops| + 1
    requires Ended(w, past, out.chain, proofs, out.qname, out.qtype, out.hops, out.shown, state, out.truncated)
    requires VerdictGiven(out.chain, out.shown, out.truncated, state, out.dnssec)
    requires out.truncated ==> out.queries == MAX_QUERIES || TimedOut(w, out.readings) || |out.qname| >= MAX_DEPTH
    ensures Guaranteed(w, out, past, proofs, k)
  {
    hide Sound, LogFits, RoutableOnly, AllStand, AnswerStands, OwnerFound, Trusted, Refuted, Unvouched, Unsettled,
      Descends, Shaped, AllFollow, TimedOut;
    SoundStands(w, past, out.qname, out.chain, proofs);
    SoundDescends(w, past, out.qname, out.chain, proofs);
    StandingLinksFollow(w, past, out.chain, proofs);
    k := ChainShape(out.chain);
    if |out.qname| <= MAX_NAME_LABELS {
      ShortNamesFit(out.qname, out.chain);
    }
    if state != Unset {
      var at: nat :| AnswerStands(w, past, out.chain, proofs, out.qname, out.qtype, out.shown, state, at);
      if out.dnssec == Secure {
        SecureIsTrusted(w, past, out, proofs, state, at);
      }
      if out.dnssec == Bogus {
        BogusIsRefuted(w, past, out, proofs, state, at);
      }
    } else if out.dnssec == Bogus {
      BogusIsRefuted(w, past, out, proofs, state, 0);
    }
    if out.dnssec == Insecure {
      InsecureIsUnvouched(w, past, out, proofs, state);
    }
    if out.dnssec == Indeterminate {
      IndeterminateIsUnsettled(w, past, out, proofs, state);
    }
  }

  /** Walks a name's delegation from the root and gives the verdict; the log and proofs are what it rests on. */
  method TraceName(w: World, qname: Name, qtype: RType)
    returns (out: Trace, ghost past: Past, ghost proofs: seq<Proof>, ghost stages: seq<Stage>, ghost k: nat)
    ensures out.qname == qname && out.qtype == qtype
    ensures Guaranteed(w, out, past, proofs, k)
    ensures Staged(w, qname, qtype, stages) && Idle(PastOf(stages), past)
    ensures out.chain == ChainOf(stages) && out.hops == HopsOf(stages)
  {
    assert NOTHING_SHOWN == Shown(None, NoError, [], None, false, false);
    hide *;
    var walk := new Walk(w, qname, qtype);
    stages := walk.Run();
    past, proofs := Past(walk.log, walk.dead, walk.truncated), walk.proofs;
    OverMeans(w, qname, qtype, Progress(past, walk.chain, proofs, walk.hops, walk.shown, walk.answer, stages));
    var dnssec := Verdict(walk.chain, walk.shown, walk.truncated, walk.answer);
    out := Trace(qname, qtype, walk.hops, walk.chain, walk.shown, dnssec, walk.truncated, walk.queries, walk.clock);
    walk.Budget();
    k := WalkGuarantees(w, out, past, proofs, walk.answer);
  }
}
