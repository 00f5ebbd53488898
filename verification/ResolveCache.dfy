/** The bounded cache in front of the link collection. */
module ResolveCache {
  import opened Basics

  type Code = string

  /** A stored link, as far as a resolve can tell two of them apart. */
  datatype Link = Link(target: string, revokedAt: Option<int>)

  /** A cached answer; no link means known absent. */
  datatype Entry = Entry(link: Option<Link>, expires: int)

  const TTL := 60
  const NEGATIVE_TTL := 60
  const MAX_ENTRIES := 4096

  /** The cache as a value: its entries and the invalidation counter. */
  datatype Cache = Cache(entries: map<Code, Entry>, gen: nat)

  predicate Expired(e: Entry, now: int) { now > e.expires }

  /** A live entry's answer, or nothing. */
  function Get(c: Cache, code: Code, now: int): Option<Option<Link>> {
    if code in c.entries && !Expired(c.entries[code], now) then Some(c.entries[code].link) else None
  }

  function Unexpired(entries: map<Code, Entry>, now: int): map<Code, Entry> {
    map code | code in entries && !Expired(entries[code], now) :: entries[code]
  }

  /** Room for one more: expired entries go first, and everything if that is not enough. */
  function Evict(entries: map<Code, Entry>, now: int): map<Code, Entry> {
    if |entries| < MAX_ENTRIES then entries
    else if |Unexpired(entries, now)| < MAX_ENTRIES then Unexpired(entries, now)
    else map[]
  }

  /** Stores an answer unless something was invalidated since gen was taken. */
  function PutIfFresh(c: Cache, code: Code, link: Option<Link>, gen: nat, now: int): Cache {
    if c.gen != gen then c
    else c.(entries := Evict(c.entries, now)[code := Entry(link, now + if link.None? then NEGATIVE_TTL else TTL)])
  }

  function Invalidate(c: Cache, code: Code): Cache {
    Cache(c.entries - {code}, c.gen + 1)
  }

  /** A put changes its own code, keeps or drops any other, and never outgrows the bound. */
  lemma PutBounded(c: Cache, code: Code, link: Option<Link>, gen: nat, now: int)
    requires |c.entries| <= MAX_ENTRIES
    ensures var c' := PutIfFresh(c, code, link, gen, now);
            && |c'.entries| <= MAX_ENTRIES && c'.gen == c.gen
            && (forall k :: k in c'.entries && k != code ==> k in c.entries && c'.entries[k] == c.entries[k])
            && (c.gen == gen ==> code in c'.entries && c'.entries[code] == Entry(link, now + 60))
            && (c.gen == gen ==> forall later :: now <= later <= now + 60 ==> Get(c', code, later) == Some(link))
            && (c.gen != gen ==> c' == c)
  {
    var kept := Evict(c.entries, now);
    var c' := PutIfFresh(c, code, link, gen, now);
    if c.gen == gen {
      assert c'.entries.Keys == kept.Keys + {code};
      assert |kept| < MAX_ENTRIES;
    }
  }

  ghost predicate Live(c: Cache, k: Code, now: int) { k in c.entries && now <= c.entries[k].expires }

  /** A put drops no other answer while there is room, only the expired ones while that makes room, and all of them
      otherwise. */
  lemma PutKeeps(c: Cache, code: Code, link: Option<Link>, now: int, live: set<Code>, k: Code)
    requires k in c.entries && k != code && forall q :: q in live <==> Live(c, q, now)
    ensures k in PutIfFresh(c, code, link, c.gen, now).entries <==>
            |c.entries| < 4096 || (|live| < 4096 && k in live)
  {
    assert Unexpired(c.entries, now).Keys == live;
    assert |Unexpired(c.entries, now)| == |live|;
  }

  lemma InvalidateForgets(c: Cache, code: Code, now: int)
    ensures var c' := Invalidate(c, code);
            && |c'.entries| <= |c.entries| && Get(c', code, now) == None
            && (forall k :: k in c'.entries <==> k in c.entries && k != code)
            && (forall k :: k in c'.entries ==> c'.entries[k] == c.entries[k])
  {
    var c' := Invalidate(c, code);
    assert c.entries.Keys == c'.entries.Keys + (c.entries.Keys * {code});
    assert |c'.entries.Keys| <= |c.entries.Keys|;
  }

  /** The cache object; each method is one critical section of its mutex. */
  class Store {
    var entries: map<Code, Entry>
    var gen: nat

    constructor ()
      ensures Value() == Cache(map[], 0)
    {
      entries, gen := map[], 0;
    }

    function Value(): Cache
      reads this
    {
      Cache(entries, gen)
    }

    method Generation() returns (g: nat)
      ensures g == Value().gen
    {
      g := gen;
    }

    method Lookup(code: Code, now: int) returns (r: Option<Option<Link>>)
      ensures r == Get(Value(), code, now)
      ensures r.Some? <==> code in entries && now <= entries[code].expires
      ensures r.Some? ==> r.value == entries[code].link
    {
      if code !in entries || now > entries[code].expires {
        return None;
      }
      return Some(entries[code].link);
    }

    method Put(code: Code, link: Option<Link>, g: nat, now: int)
      modifies this
      ensures Value() == PutIfFresh(old(Value()), code, link, g, now)
    {
      var ttl := TTL;
      if link.None? {
        ttl := NEGATIVE_TTL;
      }
      if gen != g {
        return;
      }
      if |entries| >= MAX_ENTRIES {
        DropExpired(now);
        if |entries| >= MAX_ENTRIES {
          entries := map[];
        }
      }
      entries := entries[code := Entry(link, now + ttl)];
    }

    method DropExpired(now: int)
      modifies this`entries
      ensures entries == Unexpired(old(entries), now)
    {
      var todo := entries.Keys;
      while todo != {}
        invariant todo <= entries.Keys <= old(entries).Keys
        invariant forall k :: k in entries ==> entries[k] == old(entries)[k]
        invariant forall k :: k in old(entries) && k !in todo ==> (k in entries <==> !Expired(old(entries)[k], now))
        decreases todo
      {
        var k :| k in todo;
        todo := todo - {k};
        if now > entries[k].expires {
          entries := entries - {k};
        }
      }
    }

    method Drop(code: Code)
      modifies this
      ensures Value() == Invalidate(old(Value()), code)
    {
      gen := gen + 1;
      entries := entries - {code};
    }
  }
}
