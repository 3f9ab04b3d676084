/** The accept loop both proxies run: a permit a handler, a connection refused when none is left. */
module Permits {
  const MAX_CONNECTIONS: nat := 256

  /** What the loop meets, in whatever order: a client, a failed accept, or the end of the handler with
      this number (its return, its failure and its panic all drop the permit it owns). */
  datatype Event = Accepted | AcceptFailed | Exited(handler: nat)

  /** Free permits, the handlers that run, the number of the next one, and how many were refused. */
  datatype State = State(free: nat, live: set<nat>, next: nat, refused: nat)

  const START := State(MAX_CONNECTIONS, {}, 0, 0)

  function Step(s: State, e: Event): State {
    match e
    case Accepted =>
      if s.free == 0 then s.(refused := s.refused + 1)
      else s.(free := s.free - 1, live := s.live + {s.next}, next := s.next + 1)
    case AcceptFailed => s
    case Exited(h) =>
      if h in s.live then s.(free := s.free + 1, live := s.live - {h}) else s
  }

  function Run(events: seq<Event>): State {
    if events == [] then START else Step(Run(events[..|events| - 1]), events[|events| - 1])
  }

  /** Clients that came. */
  function Clients(events: seq<Event>): nat {
    if events == [] then 0
    else Clients(events[..|events| - 1]) + if events[|events| - 1].Accepted? then 1 else 0
  }

  /** Handlers there would be with no cap: everyone who came is served and stays until its exit. */
  function Demand(events: seq<Event>): set<nat> {
    if events == [] then {}
    else
      var before, last := events[..|events| - 1], events[|events| - 1];
      match last
      case Accepted => Demand(before) + {Clients(before)}
      case AcceptFailed => Demand(before)
      case Exited(h) => Demand(before) - {h}
  }

  /** In every interleaving the permits and the handlers together are the cap, so no more handlers than
      that ever run, and everyone who came was given a handler of its own or refused. */
  lemma {:induction false} Conserved(events: seq<Event>)
    ensures var s := Run(events);
            && s.free + |s.live| == 256
            && (forall h :: h in s.live ==> h < s.next)
            && s.next + s.refused == Clients(events)
  {
    if events != [] {
      var before := events[..|events| - 1];
      Conserved(before);
    }
  }

  /** A client is refused exactly when the cap is reached, and refusing changes nothing else. */
  lemma RefusedExactly(events: seq<Event>)
    ensures var s, t := Run(events), Run(events + [Accepted]);
            && (t.refused > s.refused <==> |s.live| == 256)
            && (t.refused > s.refused ==> t == s.(refused := s.refused + 1))
            && (t.refused == s.refused ==> s.next !in s.live && t.live == s.live + {s.next})
  {
    Conserved(events);
    assert (events + [Accepted])[..|events|] == events;
  }

  predicate WithinCap(events: seq<Event>) {
    forall k :: 0 <= k <= |events| ==> |Demand(events[..k])| <= 256
  }

  lemma WithinCapStep(events: seq<Event>)
    requires events != []
    ensures WithinCap(events) <==> WithinCap(events[..|events| - 1]) && |Demand(events)| <= MAX_CONNECTIONS
  {
    hide Demand;
    var before := events[..|events| - 1];
    forall k | 0 <= k <= |before| ensures before[..k] == events[..k] {}
    assert events[..|events|] == events;
    if WithinCap(before) && |Demand(events)| <= MAX_CONNECTIONS {
      forall k | 0 <= k <= |events| ensures |Demand(events[..k])| <= MAX_CONNECTIONS {
        if k < |events| { assert before[..k] == events[..k]; }
      }
    }
    if WithinCap(events) {
      forall k | 0 <= k <= |before| ensures |Demand(before[..k])| <= MAX_CONNECTIONS {
        assert before[..k] == events[..k];
      }
    }
  }

  /** The cap is invisible while it is not exceeded: nobody is refused in a run exactly when the uncapped
      server never runs more handlers than the cap, and then both run the same ones. */
  lemma {:induction false} RefusesNobodyExactly(events: seq<Event>)
    ensures Run(events).refused == 0 <==> WithinCap(events)
    ensures WithinCap(events) ==> Run(events).live == Demand(events)
  {
    if events == [] {
      forall k | 0 <= k <= |events| ensures Demand(events[..k]) == {} {}
    } else {
      var before := events[..|events| - 1];
      RefusesNobodyExactly(before);
      Conserved(before);
      Conserved(events);
      hide WithinCap;
      var s := Run(before);
      WithinCapStep(events);
      if WithinCap(before) {
        assert s.next == Clients(before);
        if events[|events| - 1].Accepted? {
          assert s.next !in s.live;
          assert |Demand(events)| == |s.live| + 1;
        } else {
          assert Demand(events) <= s.live;
          SubsetSize(Demand(events), s.live);
        }
      }
    }
  }

  lemma SubsetSize(a: set<nat>, b: set<nat>)
    requires a <= b
    ensures |a| <= |b|
  {
    assert b == a + (b - a);
  }

  /** `serve` over a run that ends with the shutdown. */
  class Proxy {
    var free: nat
    var live: set<nat>
    var next: nat
    var refused: nat

    constructor ()
      ensures Now() == START
    {
      free, live, next, refused := MAX_CONNECTIONS, {}, 0, 0;
    }

    function Now(): State
      reads this
    {
      State(free, live, next, refused)
    }

    method Accept()
      modifies this
      ensures Now() == Step(old(Now()), Accepted)
    {
      if free == 0 {
        refused := refused + 1;
        return;
      }
      free := free - 1;
      live := live + {next};
      next := next + 1;
    }

    method Release(handler: nat)
      modifies this
      ensures Now() == Step(old(Now()), Exited(handler))
    {
      if handler in live {
        live := live - {handler};
        free := free + 1;
      }
    }

    /** After the shutdown every handler is gone and every permit is back. */
    method Serve(events: seq<Event>)
      requires Now() == START
      modifies this
      ensures live == {} && free == MAX_CONNECTIONS
      ensures next == Run(events).next && refused == Run(events).refused
      ensures next + refused == Clients(events)
    {
      for i := 0 to |events|
        invariant Now() == Run(events[..i])
      {
        assert events[..i + 1][..i] == events[..i];
        match events[i] {
          case Accepted => Accept();
          case AcceptFailed =>
          case Exited(h) => Release(h);
        }
      }
      assert events[..|events|] == events;
      Conserved(events);
      while live != {}
        invariant free + |live| == MAX_CONNECTIONS
        invariant next == Run(events).next && refused == Run(events).refused
        decreases |live|
      {
        var h :| h in live;
        Release(h);
      }
    }
  }
}
