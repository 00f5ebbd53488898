/** Asking a zone's servers: the world a walk runs in, its log, and one question put to at most three servers. */
module TraceRounds {
  import opened Basics
  import opened DnsRecords

  const MAX_QUERIES := 48
  const MAX_DEPTH := 12
  const MAX_NAME_LABELS := 10
  const MAX_SERVERS_PER_HOP := 3
  const MAX_SIDE_LOOKUPS := 2
  const MAX_KEYS := 24

  datatype Server = Server(name: Name, ip: Ip, ip6: Ip)

  /** Everything outside the walk. Replies, clock and side lookups are arbitrary and may change from call to call. */
  datatype World = World(
    crypto: Crypto,
    hints: seq<Server>,
    anchors: seq<Ds>,
    rotation: nat,
    reply: (nat, Ip, Name, RType) -> Ask,
    expired: nat -> bool,
    routable: Ip -> bool,
    lookup: (nat, Name) -> Ip,
    sorted: seq<Name> -> seq<Name>)

  /** One question put to one server, and what came of it. */
  datatype Exchange = Exchange(ip: Ip, qname: Name, qtype: RType, ask: Ask)

  /** What a walk has asked so far, the servers that stayed silent, and whether a limit has cut it. */
  datatype Past = Past(log: seq<Exchange>, dead: set<Ip>, over: bool)

  ghost predicate Grows(p: Past, p': Past) {
    p.log <= p'.log && (p.over ==> p'.over)
  }

  lemma GrowsFrom(p: Past)
    ensures Grows(p, p)
  {
  }

  lemma GrowsOn(p: Past, p1: Past, p2: Past)
    requires Grows(p, p1) && Grows(p1, p2)
    ensures Grows(p, p2)
  {
  }

  /** Every recorded reply is the one the world gave at that point. */
  ghost predicate LogFits(w: World, log: seq<Exchange>) {
    log == [] ||
    var n := |log| - 1;
    LogFits(w, log[..n]) && log[n].ask == w.reply(n, log[n].ip, log[n].qname, log[n].qtype)
  }

  lemma {:induction false} LogFitsAt(w: World, log: seq<Exchange>, i: nat)
    requires LogFits(w, log) && i < |log|
    ensures log[i].ask == w.reply(i, log[i].ip, log[i].qname, log[i].qtype)
  {
    if i < |log| - 1 {
      LogFitsAt(w, log[..|log|-1], i);
    }
  }

  /** Every question went to an address the walk may send to. */
  ghost predicate RoutableOnly(w: World, log: seq<Exchange>) {
    forall i :: 0 <= i < |log| ==> w.routable(log[i].ip)
  }

  lemma LogMore(w: World, log: seq<Exchange>, e: Exchange)
    requires LogFits(w, log) && RoutableOnly(w, log)
    requires e.ask == w.reply(|log|, e.ip, e.qname, e.qtype) && w.routable(e.ip)
    ensures LogFits(w, log + [e]) && RoutableOnly(w, log + [e])
  {
    assert (log + [e])[..|log|] == log;
  }

  /** One of the readings taken so far found the deadline passed. */
  ghost predicate TimedOut(w: World, readings: nat) {
    exists t :: 0 <= t < readings && w.expired(t)
  }

  /** A reply the walk may judge by: whole, successful and, unless it is the final question's, authoritative. */
  predicate Usable(m: Msg, final: bool) {
    !m.truncated && (m.rcode == NoError || (final && m.rcode == NxDomain)) && (final || m.authoritative)
  }

  ghost predicate Answered(log: seq<Exchange>, at: nat, qname: Name, qtype: RType, final: bool) {
    at < |log| && log[at].qname == qname && log[at].qtype == qtype
    && log[at].ask.Reply?
    && var m := log[at].ask.msg;
       && !m.truncated && (m.rcode == NoError || (final && m.rcode == NxDomain)) && (m.authoritative || final)
  }

  // ----- addresses and turns -----

  /** The first routable address, IPv4 first. */
  function AddressOf(w: World, s: Server): (r: Option<Ip>)
    ensures r.Some? ==> w.routable(r.value) && (r.value == s.ip || r.value == s.ip6)
    ensures w.routable(s.ip) ==> r == Some(s.ip)
    ensures r.None? <==> !w.routable(s.ip) && !w.routable(s.ip6)
  {
    if w.routable(s.ip) then Some(s.ip) else if w.routable(s.ip6) then Some(s.ip6) else None
  }

  function Addresses(w: World, servers: seq<Server>): seq<Ip> {
    if servers == [] then []
    else
      var init := Addresses(w, servers[..|servers|-1]);
      match AddressOf(w, servers[|servers|-1])
      case Some(ip) => init + [ip]
      case None => init
  }

  lemma AddressesPrefix(w: World, servers: seq<Server>, k: nat)
    requires k <= |servers|
    ensures Addresses(w, servers[..k]) <= Addresses(w, servers)
  {
    if k < |servers| {
      assert servers[..|servers|-1][..k] == servers[..k];
      AddressesPrefix(w, servers[..|servers|-1], k);
    } else {
      assert servers[..k] == servers;
    }
  }

  lemma AddressesStep(w: World, servers: seq<Server>, i: nat)
    requires i < |servers|
    ensures Addresses(w, servers[..i + 1]) == Addresses(w, servers[..i]) + Addresses(w, [servers[i]])
    ensures Addresses(w, servers[..i]) <= Addresses(w, servers[..i + 1]) <= Addresses(w, servers)
  {
    assert servers[..i + 1][..i] == servers[..i];
    assert [servers[i]][..0] == [];
    AddressesPrefix(w, servers, i + 1);
  }

  predicate IsDead(w: World, dead: set<Ip>, s: Server) {
    AddressOf(w, s).Some? && AddressOf(w, s).value in dead
  }

  /** The servers that are dead, or that are not, in their order. */
  function Sift(w: World, dead: set<Ip>, servers: seq<Server>, quiet: bool): seq<Server> {
    if servers == [] then []
    else
      var rest := Sift(w, dead, servers[1..], quiet);
      if IsDead(w, dead, servers[0]) == quiet then [servers[0]] + rest else rest
  }

  function LiveFirstOf(w: World, dead: set<Ip>, servers: seq<Server>): seq<Server> {
    Sift(w, dead, servers, false) + Sift(w, dead, servers, true)
  }

  /** The servers one question goes to at most. */
  ghost function Turns(w: World, dead: set<Ip>, servers: seq<Server>): seq<Server> {
    LiveFirstPermutes(w, dead, servers);
    LiveFirstOf(w, dead, servers)[..if |servers| < MAX_SERVERS_PER_HOP then |servers| else MAX_SERVERS_PER_HOP]
  }

  lemma SiftSnoc(w: World, dead: set<Ip>, servers: seq<Server>, s: Server, quiet: bool)
    ensures Sift(w, dead, servers + [s], quiet) ==
            Sift(w, dead, servers, quiet) + if IsDead(w, dead, s) == quiet then [s] else []
  {
    if servers != [] {
      assert (servers + [s])[1..] == servers[1..] + [s];
      SiftSnoc(w, dead, servers[1..], s, quiet);
    }
  }

  /** Moving quiet servers back drops none and repeats none. */
  lemma {:induction false} LiveFirstPermutes(w: World, dead: set<Ip>, servers: seq<Server>)
    ensures multiset(LiveFirstOf(w, dead, servers)) == multiset(servers)
    ensures |LiveFirstOf(w, dead, servers)| == |servers|
  {
    if servers != [] {
      var s, rest := servers[0], servers[1..];
      LiveFirstPermutes(w, dead, rest);
      var live, quiet := Sift(w, dead, rest, false), Sift(w, dead, rest, true);
      assert servers == [s] + rest;
      if IsDead(w, dead, s) {
        assert LiveFirstOf(w, dead, servers) == live + ([s] + quiet);
      } else {
        assert LiveFirstOf(w, dead, servers) == ([s] + live) + quiet;
      }
    }
  }

  lemma {:induction false} SiftAppend(w: World, dead: set<Ip>, a: seq<Server>, b: seq<Server>, quiet: bool)
    ensures Sift(w, dead, a + b, quiet) == Sift(w, dead, a, quiet) + Sift(w, dead, b, quiet)
  {
    if a == [] {
      assert a + b == b;
    } else {
      assert (a + b)[1..] == a[1..] + b;
      SiftAppend(w, dead, a[1..], b, quiet);
    }
  }

  lemma {:induction false} SiftAgain(w: World, dead: set<Ip>, servers: seq<Server>, quiet: bool)
    ensures var some := Sift(w, dead, servers, quiet);
      && Sift(w, dead, some, quiet) == some && Sift(w, dead, some, !quiet) == []
      && forall s :: s in some ==> IsDead(w, dead, s) == quiet
  {
    if servers != [] {
      var rest := Sift(w, dead, servers[1..], quiet);
      SiftAgain(w, dead, servers[1..], quiet);
      assert ([servers[0]] + rest)[1..] == rest;
    }
  }

  /** No server that went silent comes before one that did not, and neither the ones nor the others change order. */
  lemma LiveFirstOrders(w: World, dead: set<Ip>, servers: seq<Server>)
    ensures var r := LiveFirstOf(w, dead, servers);
      && (forall i, j :: 0 <= i < j < |r| && AddressOf(w, r[i]).Some? && AddressOf(w, r[i]).value in dead ==>
            AddressOf(w, r[j]).Some? && AddressOf(w, r[j]).value in dead)
      && (forall quiet :: Sift(w, dead, r, quiet) == Sift(w, dead, servers, quiet))
  {
    var live, silent := Sift(w, dead, servers, false), Sift(w, dead, servers, true);
    SiftAgain(w, dead, servers, false);
    SiftAgain(w, dead, servers, true);
    var r := LiveFirstOf(w, dead, servers);
    forall i | 0 <= i < |r| ensures IsDead(w, dead, r[i]) <==> i >= |live| {
      if i < |live| {
        assert r[i] in live;
      } else {
        assert r[i] in silent;
      }
    }
    forall quiet ensures Sift(w, dead, r, quiet) == Sift(w, dead, servers, quiet) {
      SiftAppend(w, dead, live, silent, quiet);
    }
  }

  lemma TurnsAreServers(w: World, dead: set<Ip>, servers: seq<Server>)
    ensures forall s :: s in Turns(w, dead, servers) ==> s in servers
  {
    LiveFirstPermutes(w, dead, servers);
    forall s | s in Turns(w, dead, servers) ensures s in servers {
      assert s in multiset(LiveFirstOf(w, dead, servers));
    }
  }

  ghost function AskedIps(asked: seq<Exchange>): seq<Ip> {
    if asked == [] then [] else AskedIps(asked[..|asked|-1]) + [asked[|asked|-1].ip]
  }

  /** The dead servers after some exchanges: each that stayed silent joins them. */
  ghost function Deaden(dead: set<Ip>, asked: seq<Exchange>): set<Ip> {
    if asked == [] then dead
    else
      var before, e := Deaden(dead, asked[..|asked|-1]), asked[|asked|-1];
      if e.ask.Silence? then before + {e.ip} else before
  }

  lemma AskedStep(asked: seq<Exchange>, tried: seq<Exchange>)
    requires |tried| <= 1
    ensures AskedIps(asked + tried) == AskedIps(asked) + AskedIps(tried)
    ensures tried != [] ==> (asked + tried)[..|asked + tried| - 1] == asked
  {
    if tried == [] {
      assert asked + tried == asked;
    } else {
      assert (asked + tried)[..|asked|] == asked && tried[..0] == [];
    }
  }

  ghost predicate Asking(asked: seq<Exchange>, qname: Name, qtype: RType) {
    forall k :: 0 <= k < |asked| ==> asked[k].qname == qname && asked[k].qtype == qtype
  }

  ghost predicate NothingLearnt(asked: seq<Exchange>, final: bool) {
    forall k :: 0 <= k < |asked| ==> Unusable(asked[k], final)
  }

  /** Nothing was learnt from this exchange. */
  ghost predicate Unusable(e: Exchange, final: bool) {
    e.ask.Reply? ==>
      var m := e.ask.msg;
      m.truncated || (m.rcode != NoError && !(final && m.rcode == NxDomain)) || (!final && !m.authoritative)
  }

  /** Either every exchange was useless, or the last one and only it brought the usable reply. */
  ghost predicate Outcome(asked: seq<Exchange>, r: Option<Msg>, final: bool) {
    || (r == None && NothingLearnt(asked, final))
    || (&& r.Some? && asked != [] && NothingLearnt(asked[..|asked|-1], final)
        && asked[|asked|-1].ask == Reply(r.value) && Usable(r.value, final))
  }

  /** Servers asked in turn, each with an address exactly once, until one answered usably or none was left. */
  ghost predicate Round(w: World, turns: seq<Server>, asked: seq<Exchange>, name: Name, t: RType, r: Option<Msg>,
                        final: bool) {
    && Asking(asked, name, t) && Outcome(asked, r, final)
    && AskedIps(asked) <= Addresses(w, turns)
    && (r == None ==> AskedIps(asked) == Addresses(w, turns))
  }

  /** A round the budget or the clock cut off before any usable reply. */
  ghost predicate CutRound(w: World, turns: seq<Server>, asked: seq<Exchange>, name: Name, t: RType, final: bool) {
    Asking(asked, name, t) && NothingLearnt(asked, final) && AskedIps(asked) <= Addresses(w, turns)
  }

  /** A round from one moment to a later one, whole or cut off. */
  ghost predicate Asked(w: World, turns: seq<Server>, name: Name, t: RType, final: bool, p: Past, p': Past,
                        r: Option<Msg>, whole: bool) {
    || (whole && Follow(turns, p, p') && Round(w, turns, p'.log[|p.log|..], name, t, r, final))
    || (!whole && p'.over && r == None && Follow(turns, p, p') && CutRound(w, turns, p'.log[|p.log|..], name, t, final))
  }

  /** One question put to a zone's servers. */
  ghost predicate Consulted(w: World, servers: seq<Server>, name: Name, t: RType, final: bool, p: Past, p': Past,
                            r: Option<Msg>) {
    exists whole :: Asked(w, Turns(w, p.dead, servers), name, t, final, p, p', r, whole)
  }

  /** A stretch of the log in which a question was put to some servers to no avail, in a round that was whole or cut. */
  ghost predicate Silent(w: World, past: Past, name: Name, t: RType, turns: seq<Server>, from: nat, to: nat) {
    from <= to <= |past.log| &&
    (|| Round(w, turns, past.log[from..to], name, t, None, false)
     || (past.over && CutRound(w, turns, past.log[from..to], name, t, false)))
  }

  lemma ConsultedSilent(w: World, servers: seq<Server>, name: Name, t: RType, p: Past, p': Past)
    requires Consulted(w, servers, name, t, false, p, p', None)
    ensures Silent(w, p', name, t, Turns(w, p.dead, servers), |p.log|, |p'.log|)
  {
    hide Round, CutRound, Turns;
    assert p'.log[|p.log|..|p'.log|] == p'.log[|p.log|..];
  }

  lemma SilentKept(w: World, past: Past, past': Past, name: Name, t: RType, turns: seq<Server>, from: nat, to: nat)
    requires Grows(past, past') && Silent(w, past, name, t, turns, from, to)
    ensures Silent(w, past', name, t, turns, from, to)
  {
    assert past'.log[from..to] == past.log[from..to];
    hide Round, CutRound;
  }

  /** At most one exchange for each server, and the silent ones marked dead. */
  ghost predicate Follow(turns: seq<Server>, p: Past, p': Past) {
    Grows(p, p') && |p'.log| - |p.log| <= |turns| && p'.dead == Deaden(p.dead, p'.log[|p.log|..])
  }

  lemma NobodyAsked(w: World, name: Name, t: RType, final: bool, p: Past)
    ensures Asked(w, [], name, t, final, p, p, None, true)
  {
    assert p.log[|p.log|..] == [];
  }

  lemma AskedMore(w: World, turns: seq<Server>, i: nat, name: Name, t: RType, final: bool,
                  p: Past, p': Past, p'': Past, r: Option<Msg>, whole: bool)
    requires i < |turns|
    requires Asked(w, turns[..i], name, t, final, p, p', None, true)
    requires Asked(w, [turns[i]], name, t, final, p', p'', r, whole)
    ensures Asked(w, turns[..i + 1], name, t, final, p, p'', r, whole)
  {
    var asked, tried := p'.log[|p.log|..], p''.log[|p'.log|..];
    assert p''.log[|p.log|..] == asked + tried;
    FollowMore(asked, tried, p.dead);
    if whole {
      RoundMore(w, turns, i, asked, tried, name, t, final, r);
    } else {
      CutMore(w, turns, i, asked, tried, name, t, final);
    }
  }

  lemma CutMore(w: World, turns: seq<Server>, i: nat, asked: seq<Exchange>, tried: seq<Exchange>,
                name: Name, t: RType, final: bool)
    requires i < |turns| && |tried| <= 1
    requires Round(w, turns[..i], asked, name, t, None, final) && CutRound(w, [turns[i]], tried, name, t, final)
    ensures CutRound(w, turns[..i + 1], asked + tried, name, t, final)
  {
    AddressesStep(w, turns, i);
    AskedStep(asked, tried);
  }

  lemma FollowMore(asked: seq<Exchange>, tried: seq<Exchange>, dead: set<Ip>)
    requires |tried| <= 1
    ensures Deaden(dead, asked + tried) == Deaden(Deaden(dead, asked), tried)
  {
    AskedStep(asked, tried);
    if tried == [] {
      assert asked + tried == asked;
    } else {
      assert tried[..0] == [] && (asked + tried)[|asked|] == tried[0];
    }
  }

  lemma RoundMore(w: World, turns: seq<Server>, i: nat, asked: seq<Exchange>, tried: seq<Exchange>,
                  name: Name, t: RType, final: bool, r: Option<Msg>)
    requires i < |turns| && |tried| <= 1
    requires Round(w, turns[..i], asked, name, t, None, final) && Round(w, [turns[i]], tried, name, t, r, final)
    ensures Round(w, turns[..i + 1], asked + tried, name, t, r, final)
  {
    AddressesStep(w, turns, i);
    AskedStep(asked, tried);
  }

  lemma NotAsked(w: World, s: Server, name: Name, t: RType, final: bool, p: Past, p': Past, whole: bool)
    requires (whole ==> AddressOf(w, s).None?) && (!whole ==> p'.over)
    requires p'.log == p.log && p'.dead == p.dead && (p.over ==> p'.over)
    ensures Asked(w, [s], name, t, final, p, p', None, whole)
  {
    assert p'.log[|p.log|..] == [] && [s][..0] == [];
    assert AskedIps([]) <= Addresses(w, [s]);
  }

  lemma OneAsked(w: World, s: Server, name: Name, t: RType, final: bool, p: Past, p': Past, r: Option<Msg>)
    requires |p'.log| == |p.log| + 1 && p'.log == p.log + [p'.log[|p.log|]] && (p.over ==> p'.over)
    requires var e := p'.log[|p.log|];
             && AddressOf(w, s) == Some(e.ip) && e.qname == name && e.qtype == t
             && p'.dead == (if e.ask.Silence? then p.dead + {e.ip} else p.dead)
             && r == if e.ask.Reply? && Usable(e.ask.msg, final) then Some(e.ask.msg) else None
    ensures Asked(w, [s], name, t, final, p, p', r, true)
  {
    var e := p'.log[|p.log|];
    assert p'.log[|p.log|..] == [e] && [e][..0] == [] && [s][..0] == [];
    assert AskedIps([e]) == [e.ip] == Addresses(w, [s]);
    assert Deaden(p.dead, [e]) == p'.dead;
    assert Outcome([e], r, final);
    assert Round(w, [s], [e], name, t, r, final);
  }

  lemma AskedEnough(w: World, turns: seq<Server>, i: nat, name: Name, t: RType, final: bool, p: Past, p': Past,
                    r: Option<Msg>, whole: bool)
    requires i <= |turns| && (i == |turns| || r.Some? || !whole)
    requires Asked(w, turns[..i], name, t, final, p, p', r, whole)
    ensures Asked(w, turns, name, t, final, p, p', r, whole)
  {
    assert turns[..|turns|] == turns;
    AddressesPrefix(w, turns, i);
  }

  /** A usable reply is the last entry in the log. */
  lemma AskedIsAnswer(w: World, turns: seq<Server>, name: Name, t: RType, final: bool, p: Past, p': Past,
                      r: Option<Msg>, whole: bool)
    requires Asked(w, turns, name, t, final, p, p', r, whole) && r.Some?
    ensures |p'.log| > 0 && Answered(p'.log, |p'.log| - 1, name, t, final) && p'.log[|p'.log|-1].ask == Reply(r.value)
  {
  }
}
