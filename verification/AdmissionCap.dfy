/** Weighted admission: a bound on work in flight, and a smaller one on what one client may hold of it. */
module AdmissionCap {
  // ----- one call, on values -----

  /** held has no entry for a client holding nothing; used is the semaphore's. */
  datatype State = State(held: map<string, int>, used: int)

  const IDLE := State(map[], 0)

  function Share(n: int): int { if n / 4 > 1 then n / 4 else 1 }

  function HeldOf(s: State, key: string): int { if key in s.held then s.held[key] else 0 }

  predicate Grants(n: int, s: State, key: string, w: int) {
    !(HeldOf(s, key) > 0 && HeldOf(s, key) + w > Share(n)) && s.used + w <= n
  }

  function Acquired(s: State, key: string, w: int): State {
    State(s.held[key := HeldOf(s, key) + w], s.used + w)
  }

  function Released(s: State, key: string, w: int): State {
    var h := HeldOf(s, key) - w;
    State(if h <= 0 then s.held - {key} else s.held[key := h], s.used - w)
  }

  /** keyOf is RateLimitKey; the mutex makes each method one step. */
  class Cap {
    const n: int
    const keyOf: string -> string
    var held: map<string, int>
    var used: int

    ghost function Now(): State
      reads this
    {
      State(held, used)
    }

    constructor (n: int, keyOf: string -> string)
      ensures this.n == n && this.keyOf == keyOf && Now() == IDLE
    {
      this.n, this.keyOf := n, keyOf;
      held, used := map[], 0;
    }

    method TryAcquire(client: string, w: int) returns (ok: bool)
      modifies this
      ensures ok <==> Grants(n, old(Now()), keyOf(client), w)
      ensures Now() == if ok then Acquired(old(Now()), keyOf(client), w) else old(Now())
    {
      var key := keyOf(client);
      var h := if key in held then held[key] else 0;
      if h > 0 && h + w > Share(n) {
        return false;
      }
      if used + w > n {
        return false;
      }
      used := used + w;
      held := held[key := h + w];
      ok := true;
    }

    /** The semaphore panics when more is released than is in use. */
    method Release(client: string, w: int)
      requires w <= used
      modifies this
      ensures Now() == Released(old(Now()), keyOf(client), w)
    {
      var key := keyOf(client);
      held := held[key := (if key in held then held[key] else 0) - w];
      if held[key] <= 0 {
        held := held - {key};
      }
      used := used - w;
      assert held == Released(old(Now()), key, w).held;
    }
  }

  // ----- histories -----

  datatype Grant = Grant(key: string, weight: int)

  /** Ask is a TryAcquire, granted or not; Return gives back the outstanding grant at that place. */
  datatype Event = Ask(key: string, weight: int) | Return(at: nat)

  datatype Moment = Moment(state: State, outstanding: seq<Grant>)

  predicate Allowed(m: Moment, e: Event) {
    match e
    case Ask(_, w) => w > 0
    case Return(at) => at < |m.outstanding|
  }

  function Next(n: int, m: Moment, e: Event): Moment
    requires Allowed(m, e)
  {
    match e
    case Ask(key, w) =>
      if Grants(n, m.state, key, w) then Moment(Acquired(m.state, key, w), m.outstanding + [Grant(key, w)]) else m
    case Return(at) =>
      var g := m.outstanding[at];
      Moment(Released(m.state, g.key, g.weight), Without(m.outstanding, at))
  }

  function Without(gs: seq<Grant>, at: nat): seq<Grant>
    requires at < |gs|
  {
    gs[..at] + gs[at+1..]
  }

  /** Every release gives back an outstanding grant, and weights are positive. */
  ghost predicate Balanced(n: int, events: seq<Event>)
    decreases |events|, 0
  {
    events == [] || (Balanced(n, events[..|events|-1]) && Allowed(After(n, events[..|events|-1]), events[|events|-1]))
  }

  ghost function After(n: int, events: seq<Event>): Moment
    requires Balanced(n, events)
    decreases |events|, 1
  {
    if events == [] then Moment(IDLE, [])
    else Next(n, After(n, events[..|events|-1]), events[|events|-1])
  }

  function HeldBy(gs: seq<Grant>, key: string): int {
    if gs == [] then 0 else HeldBy(gs[..|gs|-1], key) + (if gs[|gs|-1].key == key then gs[|gs|-1].weight else 0)
  }

  function CountOf(gs: seq<Grant>, key: string): nat {
    if gs == [] then 0 else CountOf(gs[..|gs|-1], key) + (if gs[|gs|-1].key == key then 1 else 0)
  }

  function Total(gs: seq<Grant>): int { if gs == [] then 0 else Total(gs[..|gs|-1]) + gs[|gs|-1].weight }

  ghost predicate Positive(gs: seq<Grant>) { forall i :: 0 <= i < |gs| ==> gs[i].weight > 0 }

  /** What each client holds is what it was granted and has not given back; the semaphore counts the same grants and
      never passes n; a client above its share got there with one grant. */
  ghost predicate Settled(n: int, m: Moment) {
    && Positive(m.outstanding)
    && (forall key :: HeldOf(m.state, key) == HeldBy(m.outstanding, key))
    && (forall key :: key in m.state.held <==> CountOf(m.outstanding, key) > 0)
    && m.state.used == Total(m.outstanding)
    && (m.outstanding != [] ==> m.state.used <= n)
    && (forall key :: HeldBy(m.outstanding, key) > Share(n) ==> CountOf(m.outstanding, key) == 1)
  }

  lemma {:induction false} Sums(gs: seq<Grant>, key: string)
    requires Positive(gs)
    ensures HeldBy(gs, key) >= CountOf(gs, key) && (CountOf(gs, key) == 0 ==> HeldBy(gs, key) == 0)
    ensures Total(gs) >= 0 && (gs == [] <==> Total(gs) == 0) && HeldBy(gs, key) <= Total(gs)
  {
    if gs != [] {
      Sums(gs[..|gs|-1], key);
    }
  }

  lemma Added(gs: seq<Grant>, g: Grant, key: string)
    ensures HeldBy(gs + [g], key) == HeldBy(gs, key) + (if g.key == key then g.weight else 0)
    ensures CountOf(gs + [g], key) == CountOf(gs, key) + (if g.key == key then 1 else 0)
    ensures Total(gs + [g]) == Total(gs) + g.weight
  {
    assert (gs + [g])[..|gs|] == gs;
  }

  lemma {:induction false} Taken(gs: seq<Grant>, at: nat, key: string)
    requires at < |gs|
    ensures HeldBy(Without(gs, at), key) == HeldBy(gs, key) - (if gs[at].key == key then gs[at].weight else 0)
    ensures CountOf(Without(gs, at), key) == CountOf(gs, key) - (if gs[at].key == key then 1 else 0)
    ensures Total(Without(gs, at)) == Total(gs) - gs[at].weight
  {
    hide HeldBy, CountOf, Total;
    var k := |gs| - 1;
    Added(gs[..k], gs[k], key);
    assert gs == gs[..k] + [gs[k]];
    if at == k {
      assert Without(gs, at) == gs[..k];
    } else {
      Taken(gs[..k], at, key);
      assert Without(gs, at) == Without(gs[..k], at) + [gs[k]];
      Added(Without(gs[..k], at), gs[k], key);
    }
  }

  lemma GrantSettles(n: int, m: Moment, key: string, w: int)
    requires Settled(n, m) && w > 0 && Grants(n, m.state, key, w)
    ensures Settled(n, Moment(Acquired(m.state, key, w), m.outstanding + [Grant(key, w)]))
  {
    var gs, g := m.outstanding, Grant(key, w);
    forall k
      ensures HeldBy(gs + [g], k) == HeldBy(gs, k) + (if key == k then w else 0)
      ensures CountOf(gs + [g], k) == CountOf(gs, k) + (if key == k then 1 else 0)
      ensures CountOf(gs, k) == 0 <==> HeldBy(gs, k) <= 0
    {
      Added(gs, g, k);
      Sums(gs, k);
    }
    Added(gs, g, key);
    hide HeldBy, CountOf, Total;
  }

  lemma ReturnSettles(n: int, m: Moment, at: nat)
    requires Settled(n, m) && at < |m.outstanding|
    ensures Settled(n, Next(n, m, Return(at)))
  {
    var gs, g := m.outstanding, m.outstanding[at];
    var rest := Without(gs, at);
    assert Positive(rest);
    forall k
      ensures HeldBy(rest, k) == HeldBy(gs, k) - (if g.key == k then g.weight else 0)
      ensures CountOf(rest, k) == CountOf(gs, k) - (if g.key == k then 1 else 0)
      ensures HeldBy(rest, k) >= 0 && (CountOf(rest, k) == 0 <==> HeldBy(rest, k) == 0)
    {
      Taken(gs, at, k);
      Sums(rest, k);
    }
    Taken(gs, at, g.key);
    hide HeldBy, CountOf, Total;
  }

  /** After every balanced history. */
  lemma {:induction false} HistorySettles(n: int, events: seq<Event>)
    requires Balanced(n, events)
    ensures Settled(n, After(n, events))
    decreases |events|
  {
    if events != [] {
      var before, e := events[..|events|-1], events[|events|-1];
      HistorySettles(n, before);
      hide Settled;
      match e
      case Ask(key, w) =>
        if Grants(n, After(n, before).state, key, w) {
          GrantSettles(n, After(n, before), key, w);
        }
      case Return(at) =>
        ReturnSettles(n, After(n, before), at);
    }
  }

  /** A request is refused exactly when the client's outstanding grants and it pass the share together, or all grants
      and it pass n; so with nothing outstanding any weight up to n is granted. */
  lemma RefusedIff(n: int, events: seq<Event>, key: string, w: int)
    requires Balanced(n, events) && w > 0
    ensures var m := After(n, events); var gs := m.outstanding;
      && (Grants(n, m.state, key, w) <==>
          !(CountOf(gs, key) > 0 && HeldBy(gs, key) + w > Share(n)) && Total(gs) + w <= n)
      && (gs == [] ==> m.state == IDLE && (Grants(n, m.state, key, w) <==> w <= n))
  {
    var m := After(n, events);
    HistorySettles(n, events);
    Sums(m.outstanding, key);
    if m.outstanding == [] {
      assert m.state.held == map[] by {
        forall k ensures k !in m.state.held { assert CountOf(m.outstanding, k) == 0; }
      }
    }
  }

  /** A client's share is a quarter of the capacity, rounded down, or 1 if that is less. */
  lemma ShareIs(n: int)
    ensures Share(n) >= 1 && n < 4 * Share(n) + 4 && (Share(n) > 1 ==> 4 * Share(n) <= n)
  {
  }

  /** So three other clients within their shares never keep a fourth from its own. */
  lemma FourthFits(n: int, events: seq<Event>, key: string, w: int)
    requires Balanced(n, events) && n >= 4 && 0 < w <= Share(n)
    requires CountOf(After(n, events).outstanding, key) == 0 && Total(After(n, events).outstanding) <= 3 * Share(n)
    ensures Grants(n, After(n, events).state, key, w)
  {
    ShareIs(n);
    RefusedIff(n, events, key, w);
  }

  // ----- the weight of a heavy operation -----

  const MIB := 1048576

  /** The operation's memory cost within [1 MiB, budget]. */
  function HeavyWeight(cost: int, budget: int): (w: int)
    requires budget >= MIB
    ensures MIB <= w <= budget && (MIB <= cost <= budget ==> w == cost)
    ensures (cost < MIB ==> w == MIB) && (cost > budget ==> w == budget)
  {
    var atLeast := if cost > MIB then cost else MIB;
    if atLeast < budget then atLeast else budget
  }

  /** So no heavy operation is refused forever: once what is outstanding has been given back, it is granted. */
  lemma HeavyIsGranted(budget: int, events: seq<Event>, key: string, cost: int)
    requires budget >= MIB && Balanced(budget, events) && After(budget, events).outstanding == []
    ensures Grants(budget, After(budget, events).state, key, HeavyWeight(cost, budget))
  {
    RefusedIff(budget, events, key, HeavyWeight(cost, budget));
  }
}
