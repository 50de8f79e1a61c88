/** A whole mesh as a step machine: nodes broadcast their announces to whoever happens
    to hear them, tables age, operators block links, time passes.  Two promises of the
    distance-vector design are proved over every run: count-to-infinity is bounded by
    the hop ceiling, and route costs never leave the range the wire can carry. */
module Network {
  import opened Basics
  import opened MeshTypes
  import opened Router
  import opened AnnounceCodec
  import N = NeighborTable
  import R = RoutingTable

  datatype Net = Net(nodes: map<NodeId, State>, now: nat)

  /** One event.  A beacon is serialised into `cap` bytes (a short frame cuts the
      announce) and reaches exactly the nodes in `heard`, each at its own quality. */
  datatype Step =
    | Beacon(src: NodeId, heard: map<NodeId, real>, cap: nat, caps: nat)
    | Tick(node: NodeId, neighborTimeout: nat, routeTimeout: nat)
    | Block(node: NodeId, victim: NodeId)
    | Unblock(node: NodeId, victim: NodeId)
    | Pass(ms: nat)

  /** Table sizes and byte-sized hop counts, as the fixed tables guarantee. */
  ghost predicate NodeSized(st: State)
  {
    && |st.neighbors| == N.MAX_NEIGHBORS && |st.routes| == R.MAX_ROUTES
    && R.AllRoutes(st.routes, (r: R.Route) => r.hops < 256)
  }

  ghost predicate Sized(net: Net)
  {
    forall n :: n in net.nodes ==> net.nodes[n].id == n && NodeSized(net.nodes[n])
  }

  ghost function OnAir(st: State, cap: nat, caps: nat): Parsed
    requires NodeSized(st)
  {
    AnnounceSize(st, caps);
    Decoded(Encoded(BuildAnnounce(st, caps % 0x1_0000), cap))
  }

  ghost function Hears(st: State, from: NodeId, q: real, wire: Parsed, now: nat): State
  {
    match wire
    case Malformed => st
    case Parsed(a) => OnBeacon(st, from, q, a, now)
  }

  ghost function Next(net: Net, step: Step): Net
    requires Sized(net)
  {
    match step
    case Beacon(src, heard, cap, caps) =>
      if src !in net.nodes then net
      else
        var wire := OnAir(net.nodes[src], cap, caps);
        net.(nodes := map n | n in net.nodes ::
          if n in heard then Hears(net.nodes[n], src, heard[n], wire, net.now) else net.nodes[n])
    case Tick(n, nt, rt) =>
      if n !in net.nodes then net
      else net.(nodes := net.nodes[n := Router.Tick(net.nodes[n], net.now, nt, rt)])
    case Block(n, victim) =>
      if n !in net.nodes then net else net.(nodes := net.nodes[n := Router.Block(net.nodes[n], victim)])
    case Unblock(n, victim) =>
      if n !in net.nodes then net else net.(nodes := net.nodes[n := Router.Unblock(net.nodes[n], victim)])
    case Pass(ms) => net.(now := net.now + ms)
  }

  // ------------------------------------------------------- sizes are preserved

  lemma {:induction false} ReportsLength(s: seq<N.Neighbor>)
    ensures |Reports(s)| <= |s|
  {
    if |s| > 0 { ReportsLength(s[..|s| - 1]); }
  }

  lemma {:induction false} AdvsLength(s: seq<R.Route>)
    ensures |Advs(s)| <= |s|
  {
    if |s| > 0 { AdvsLength(s[..|s| - 1]); }
  }

  lemma AnnounceSize(st: State, caps: nat)
    requires NodeSized(st)
    ensures WireSized(BuildAnnounce(st, caps % 0x1_0000))
  {
    ReportsLength(st.neighbors);
    AdvsLength(st.routes);
    forall adv | adv in Advs(st.routes)
      ensures adv.hops < 256
    {
      AdvsAreRoutes(st.routes, adv);
    }
  }

  /** Everything on the air is a quantised copy of one of the sender's routes. */
  lemma OnAirRoutes(st: State, cap: nat, caps: nat, a: Announce, adv: RouteAdv) returns (i: nat)
    requires NodeSized(st) && OnAir(st, cap, caps) == Parsed(a) && adv in a.routes
    ensures i < |st.routes| && st.routes[i].used
    ensures adv == WireRoute(RouteAdv(st.routes[i].dst, st.routes[i].nextHop, st.routes[i].cost, st.routes[i].hops))
  {
    var full := BuildAnnounce(st, caps % 0x1_0000);
    AnnounceSize(st, caps);
    RoundTrip(full, cap);
    var k :| 0 <= k < |a.routes| && a.routes[k] == adv;
    assert adv == WireRoute(full.routes[k]);
    AdvsAreRoutes(st.routes, full.routes[k]);
    i :| 0 <= i < |st.routes| && st.routes[i].used &&
         full.routes[k] == RouteAdv(st.routes[i].dst, st.routes[i].nextHop, st.routes[i].cost, st.routes[i].hops);
  }

  lemma {:induction false} RelaxLength(routes: seq<R.Route>, me: NodeId, from: NodeId, linkCost: real,
                                       advs: seq<RouteAdv>, now: nat)
    ensures |Relax(routes, me, from, linkCost, advs, now)| == |routes|
  {
    if |advs| > 0 { RelaxLength(routes, me, from, linkCost, advs[..|advs| - 1], now); }
  }

  lemma {:induction false} DropAllLength(routes: seq<R.Route>, me: NodeId, ids: seq<NodeId>)
    ensures |DropAll(routes, me, ids)| == |routes|
  {
    if |ids| > 0 { DropAllLength(routes, me, ids[..|ids| - 1]); }
  }

  lemma HearsSized(st: State, from: NodeId, q: real, wire: Parsed, now: nat)
    requires NodeSized(st)
    ensures NodeSized(Hears(st, from, q, wire, now)) && Hears(st, from, q, wire, now).id == st.id
  {
    if wire.Parsed? && from != st.id && from !in st.blocked {
      var a := wire.announce;
      RelaxLength(R.SetSelf(st.routes, st.id, now), st.id, from, N.TxCost(Learn(st, from, q, a, now), from), a.routes,
                  now);
      OnBeaconKeeps(st, from, q, a, now, (r: R.Route) => r.hops < 256);
    }
  }

  lemma TickSized(st: State, now: nat, nt: nat, rt: nat)
    requires NodeSized(st)
    ensures NodeSized(Router.Tick(st, now, nt, rt)) && Router.Tick(st, now, nt, rt).id == st.id
  {
    DropAllLength(st.routes, st.id, N.Removed(st.neighbors, now, nt));
    TickKeeps(st, now, nt, rt, (r: R.Route) => r.hops < 256, (r: R.Route) => r.hops < 256);
  }

  lemma BlockSized(st: State, id: NodeId)
    requires NodeSized(st)
    ensures NodeSized(Router.Block(st, id)) && Router.Block(st, id).id == st.id
    ensures NodeSized(Router.Unblock(st, id)) && Router.Unblock(st, id).id == st.id
  {
    BlockKeeps(st, id, (r: R.Route) => r.hops < 256);
  }

  lemma NextSized(net: Net, step: Step)
    requires Sized(net)
    ensures Sized(Next(net, step)) && Next(net, step).nodes.Keys == net.nodes.Keys
    ensures Next(net, step).now == net.now + if step.Pass? then step.ms else 0
  {
    match step
    case Beacon(src, heard, cap, caps) =>
      if src in net.nodes {
        var wire := OnAir(net.nodes[src], cap, caps);
        forall n | n in net.nodes && n in heard
          ensures NodeSized(Hears(net.nodes[n], src, heard[n], wire, net.now))
          ensures Hears(net.nodes[n], src, heard[n], wire, net.now).id == n
        {
          HearsSized(net.nodes[n], src, heard[n], wire, net.now);
        }
      }
    case Tick(n, nt, rt) =>
      if n in net.nodes { TickSized(net.nodes[n], net.now, nt, rt); }
    case Block(n, victim) =>
      if n in net.nodes { BlockSized(net.nodes[n], victim); }
    case Unblock(n, victim) =>
      if n in net.nodes { BlockSized(net.nodes[n], victim); }
    case Pass(_) =>
  }

  // --------------------------------------------------------------------- runs

  ghost function Run(net: Net, steps: seq<Step>): (r: Net)
    requires Sized(net)
    ensures Sized(r) && r.nodes.Keys == net.nodes.Keys && r.now >= net.now
    decreases |steps|
  {
    if |steps| == 0 then net
    else
      NextSized(net, steps[0]);
      Run(Next(net, steps[0]), steps[1..])
  }

  ghost predicate Silent(steps: seq<Step>, d: NodeId)
  {
    forall s :: s in steps && s.Beacon? ==> s.src != d
  }

  /** Nodes that tick somewhere in the run at a moment when everything stored by t0 is
      older than the route timeout of that tick. */
  ghost function LateTickers(net: Net, steps: seq<Step>, t0: nat): set<NodeId>
    requires Sized(net)
    decreases |steps|
  {
    if |steps| == 0 then {}
    else
      NextSized(net, steps[0]);
      LateTickers(Next(net, steps[0]), steps[1..], t0) + TicksNow(net, steps[0], t0)
  }

  ghost function TicksNow(net: Net, s: Step, t0: nat): set<NodeId>
  {
    if s.Tick? && net.now > t0 + s.routeTimeout then {s.node} else {}
  }

  // -------------------------------------------------------- count to infinity

  /** Every stored route to d has between m and MAX_HOPS hops and a stamp from `since` on. */
  ghost predicate HopsAtLeast(net: Net, d: NodeId, m: nat, since: nat)
  {
    forall n :: n in net.nodes && n != d ==> R.AllRoutes(net.nodes[n].routes, Far(d, m, since, net.now))
  }

  ghost function Far(d: NodeId, m: nat, since: nat, now: nat): R.Route -> bool
  {
    (r: R.Route) => r.dst == d ==> m <= r.hops <= R.MAX_HOPS && since <= r.updated <= now
  }

  /** During a window that began at t0: a route to d is one hop longer than m, or it
      still has m hops, was stored by t0, and its node has not yet expired it. */
  ghost function Receding(d: NodeId, m: nat, since: nat, now: nat, t0: nat, expired: bool): R.Route -> bool
  {
    (r: R.Route) => r.dst == d ==>
      m <= r.hops <= R.MAX_HOPS && since <= r.updated <= now && (r.hops > m || (!expired && r.updated <= t0))
  }

  ghost predicate WindowInv(net: Net, d: NodeId, m: nat, since: nat, t0: nat, expired: set<NodeId>)
  {
    forall n :: n in net.nodes && n != d ==>
      R.AllRoutes(net.nodes[n].routes, Receding(d, m, since, net.now, t0, n in expired))
  }

  lemma CandidateReceding(from: NodeId, linkCost: real, r: R.Route, now: nat,
                          d: NodeId, m: nat, since: nat, t0: nat, expired: bool, senderExpired: bool)
    requires since <= now && Receding(d, m, since, now, t0, senderExpired)(r)
    ensures var c := CandidateRoute(from, linkCost, WireRoute(RouteAdv(r.dst, r.nextHop, r.cost, r.hops)), now);
            R.Unreachable(c.cost, c.hops) || Receding(d, m, since, now, t0, expired)(c)
  {
  }

  /** A heard beacon can only store routes longer than the sender's. */
  lemma HearsReceding(st: State, sender: State, q: real, cap: nat, caps: nat, now: nat,
                      d: NodeId, m: nat, since: nat, t0: nat, expired: bool, senderExpired: bool)
    requires NodeSized(sender) && st.id != d && since <= t0 <= now
    requires R.AllRoutes(st.routes, Receding(d, m, since, now, t0, expired))
    requires R.AllRoutes(sender.routes, Receding(d, m, since, now, t0, senderExpired))
    ensures R.AllRoutes(Hears(st, sender.id, q, OnAir(sender, cap, caps), now).routes,
                        Receding(d, m, since, now, t0, expired))
  {
    var wire := OnAir(sender, cap, caps);
    var p := Receding(d, m, since, now, t0, expired);
    if wire.Parsed? {
      var a := wire.announce;
      var cost := N.TxCost(Learn(st, sender.id, q, a, now), sender.id);
      forall adv | adv in a.routes && adv.dst != st.id
        ensures var r := CandidateRoute(sender.id, cost, adv, now); R.Unreachable(r.cost, r.hops) || p(r)
      {
        var i := OnAirRoutes(sender, cap, caps, a, adv);
        assert Receding(d, m, since, now, t0, senderExpired)(sender.routes[i]);
        CandidateReceding(sender.id, cost, sender.routes[i], now, d, m, since, t0, expired, senderExpired);
      }
      OnBeaconKeeps(st, sender.id, q, a, now, p);
    }
  }

  /** A late tick removes every route of m hops. */
  lemma TickReceding(st: State, now: nat, nt: nat, rt: nat, d: NodeId, m: nat, since: nat, t0: nat, expired: bool)
    requires st.id != d && since <= t0 && now < since + 0x1_0000_0000
    requires R.AllRoutes(st.routes, Receding(d, m, since, now, t0, expired))
    ensures R.AllRoutes(Router.Tick(st, now, nt, rt).routes, Receding(d, m, since, now, t0, expired || now > t0 + rt))
  {
    TickKeeps(st, now, nt, rt, Receding(d, m, since, now, t0, expired),
              Receding(d, m, since, now, t0, expired || now > t0 + rt));
  }

  lemma StepReceding(net: Net, step: Step, d: NodeId, m: nat, since: nat, t0: nat, expired: set<NodeId>)
    requires Sized(net) && !(step.Beacon? && step.src == d)
    requires since <= t0 <= net.now < since + 0x1_0000_0000
    requires WindowInv(net, d, m, since, t0, expired)
    ensures WindowInv(Next(net, step), d, m, since, t0, expired + TicksNow(net, step, t0))
  {
    var next := Next(net, step);
    NextSized(net, step);
    forall n | n in next.nodes && n != d
      ensures R.AllRoutes(next.nodes[n].routes,
                          Receding(d, m, since, next.now, t0, n in expired + TicksNow(net, step, t0)))
    {
      assert R.AllRoutes(net.nodes[n].routes, Receding(d, m, since, net.now, t0, n in expired));
      match step
      case Beacon(src, heard, cap, caps) =>
        if src in net.nodes && n in heard {
          assert R.AllRoutes(net.nodes[src].routes, Receding(d, m, since, net.now, t0, src in expired));
          HearsReceding(net.nodes[n], net.nodes[src], heard[n], cap, caps, net.now, d, m, since, t0, n in expired,
                        src in expired);
        }
      case Tick(k, nt, rt) =>
        if n == k { TickReceding(net.nodes[n], net.now, nt, rt, d, m, since, t0, n in expired); }
      case Block(k, victim) =>
        if n == k { BlockKeeps(net.nodes[n], victim, Receding(d, m, since, net.now, t0, n in expired)); }
      case Unblock(k, victim) =>
      case Pass(ms) =>
    }
  }

  lemma {:induction false} RunReceding(net: Net, steps: seq<Step>, d: NodeId, m: nat, since: nat, t0: nat,
                                       expired: set<NodeId>)
    requires Sized(net) && Silent(steps, d)
    requires since <= t0 <= net.now && Run(net, steps).now < since + 0x1_0000_0000
    requires WindowInv(net, d, m, since, t0, expired)
    ensures WindowInv(Run(net, steps), d, m, since, t0, expired + LateTickers(net, steps, t0))
    decreases |steps|
  {
    if |steps| == 0 {
      assert expired + LateTickers(net, steps, t0) == expired;
    } else {
      var next := Next(net, steps[0]);
      NextSized(net, steps[0]);
      assert steps[0] in steps;
      assert forall s :: s in steps[1..] ==> s in steps;
      assert Run(net, steps) == Run(next, steps[1..]);
      StepReceding(net, steps[0], d, m, since, t0, expired);
      var expired' := expired + TicksNow(net, steps[0], t0);
      RunReceding(next, steps[1..], d, m, since, t0, expired');
      assert expired' + LateTickers(next, steps[1..], t0) == expired + LateTickers(net, steps, t0);
    }
  }

  /** While d is silent the least hop count of a route to d never falls, and one window
      in which every other node ticks late enough raises it by at least one. */
  lemma WindowRaisesHops(net: Net, steps: seq<Step>, d: NodeId, m: nat, since: nat)
    requires Sized(net) && Silent(steps, d) && since <= net.now
    requires Run(net, steps).now < since + 0x1_0000_0000
    requires HopsAtLeast(net, d, m, since)
    ensures HopsAtLeast(Run(net, steps), d, m, since)
    ensures net.nodes.Keys - {d} <= LateTickers(net, steps, net.now) ==> HopsAtLeast(Run(net, steps), d, m + 1, since)
  {
    forall n | n in net.nodes && n != d
      ensures R.AllRoutes(net.nodes[n].routes, Receding(d, m, since, net.now, net.now, n in {}))
    {
      assert R.AllRoutes(net.nodes[n].routes, Far(d, m, since, net.now));
    }
    RunReceding(net, steps, d, m, since, net.now, {});
    var end, late := Run(net, steps), LateTickers(net, steps, net.now);
    forall n | n in end.nodes && n != d
      ensures R.AllRoutes(end.nodes[n].routes, Far(d, m, since, end.now))
      ensures n in late ==> R.AllRoutes(end.nodes[n].routes, Far(d, m + 1, since, end.now))
    {
      assert R.AllRoutes(end.nodes[n].routes, Receding(d, m, since, end.now, net.now, n in {} + late));
    }
  }

  ghost function RunWindows(net: Net, windows: seq<seq<Step>>): (r: Net)
    requires Sized(net)
    ensures Sized(r) && r.now >= net.now && r.nodes.Keys == net.nodes.Keys
    decreases |windows|
  {
    if |windows| == 0 then net else RunWindows(Run(net, windows[0]), windows[1..])
  }

  /** Each window: d is silent, and every other node ticks once more than its route
      timeout after the window began. */
  ghost predicate GoodWindows(net: Net, windows: seq<seq<Step>>, d: NodeId)
    requires Sized(net)
    decreases |windows|
  {
    |windows| > 0 ==>
      && Silent(windows[0], d)
      && net.nodes.Keys - {d} <= LateTickers(net, windows[0], net.now)
      && GoodWindows(Run(net, windows[0]), windows[1..], d)
  }

  lemma {:induction false} WindowsRaiseHops(net: Net, windows: seq<seq<Step>>, d: NodeId, m: nat, since: nat)
    requires Sized(net) && GoodWindows(net, windows, d) && since <= net.now
    requires RunWindows(net, windows).now < since + 0x1_0000_0000
    requires HopsAtLeast(net, d, m, since)
    ensures HopsAtLeast(RunWindows(net, windows), d, m + |windows|, since)
    decreases |windows|
  {
    if |windows| > 0 {
      WindowRaisesHops(net, windows[0], d, m, since);
      WindowsRaiseHops(Run(net, windows[0]), windows[1..], d, m + 1, since);
    }
  }

  ghost predicate NoRoute(net: Net, d: NodeId)
  {
    forall n, i :: n in net.nodes && n != d && 0 <= i < |net.nodes[n].routes| && net.nodes[n].routes[i].used
      ==> net.nodes[n].routes[i].dst != d
  }

  /** Count-to-infinity is bounded: from any tables whose routes to d have at least one
      hop, MAX_HOPS windows after d fell silent no node holds a route to d, whichever
      beacons were heard, truncated, blocked or lost on the way. */
  lemma CountToInfinityBounded(net: Net, windows: seq<seq<Step>>, d: NodeId, since: nat)
    requires Sized(net) && since <= net.now && HopsAtLeast(net, d, 1, since)
    requires GoodWindows(net, windows, d) && |windows| >= R.MAX_HOPS
    requires RunWindows(net, windows).now < since + 0x1_0000_0000  // less than one clock wrap, 49.7 days
    ensures NoRoute(RunWindows(net, windows), d)
  {
    WindowsRaiseHops(net, windows, d, 1, since);
    GoneAtCeiling(RunWindows(net, windows), d, 1 + |windows|, since);
  }

  lemma GoneAtCeiling(net: Net, d: NodeId, m: nat, since: nat)
    requires HopsAtLeast(net, d, m, since) && m > R.MAX_HOPS
    ensures NoRoute(net, d)
  {
    forall n, i | n in net.nodes && n != d && 0 <= i < |net.nodes[n].routes| && net.nodes[n].routes[i].used
      ensures net.nodes[n].routes[i].dst != d
    {
      assert R.AllRoutes(net.nodes[n].routes, Far(d, m, since, net.now));
      assert Far(d, m, since, net.now)(net.nodes[n].routes[i]);
    }
  }

  ghost function Elsewhere(d: NodeId): R.Route -> bool
  {
    (r: R.Route) => r.dst != d
  }

  lemma HearsNothing(st: State, sender: State, q: real, cap: nat, caps: nat, now: nat, d: NodeId)
    requires NodeSized(sender) && st.id != d
    requires R.AllRoutes(st.routes, Elsewhere(d)) && R.AllRoutes(sender.routes, Elsewhere(d))
    ensures R.AllRoutes(Hears(st, sender.id, q, OnAir(sender, cap, caps), now).routes, Elsewhere(d))
  {
    var wire := OnAir(sender, cap, caps);
    if wire.Parsed? {
      var a := wire.announce;
      forall adv | adv in a.routes && adv.dst != st.id
        ensures adv.dst != d
      {
        var i := OnAirRoutes(sender, cap, caps, a, adv);
        assert Elsewhere(d)(sender.routes[i]);
      }
      OnBeaconKeeps(st, sender.id, q, a, now, Elsewhere(d));
    }
  }

  lemma StepStaysGone(net: Net, step: Step, d: NodeId)
    requires Sized(net) && !(step.Beacon? && step.src == d) && NoRoute(net, d)
    ensures NoRoute(Next(net, step), d)
  {
    var next := Next(net, step);
    NextSized(net, step);
    forall n | n in next.nodes && n != d
      ensures R.AllRoutes(next.nodes[n].routes, Elsewhere(d))
    {
      assert R.AllRoutes(net.nodes[n].routes, Elsewhere(d));
      match step
      case Beacon(src, heard, cap, caps) =>
        if src in net.nodes && n in heard {
          assert R.AllRoutes(net.nodes[src].routes, Elsewhere(d));
          HearsNothing(net.nodes[n], net.nodes[src], heard[n], cap, caps, net.now, d);
        }
      case Tick(k, nt, rt) =>
        if n == k { TickKeeps(net.nodes[n], net.now, nt, rt, Elsewhere(d), Elsewhere(d)); }
      case Block(k, victim) =>
        if n == k { BlockKeeps(net.nodes[n], victim, Elsewhere(d)); }
      case Unblock(k, victim) =>
      case Pass(ms) =>
    }
    forall n, i | n in next.nodes && n != d && 0 <= i < |next.nodes[n].routes| && next.nodes[n].routes[i].used
      ensures next.nodes[n].routes[i].dst != d
    {
      assert R.AllRoutes(next.nodes[n].routes, Elsewhere(d));
      assert Elsewhere(d)(next.nodes[n].routes[i]);
    }
  }

  /** And it stays gone for as long as d stays silent, over clock wraps too. */
  lemma {:induction false} StaysGone(net: Net, steps: seq<Step>, d: NodeId)
    requires Sized(net) && Silent(steps, d) && NoRoute(net, d)
    ensures NoRoute(Run(net, steps), d)
    decreases |steps|
  {
    if |steps| > 0 {
      var next := Next(net, steps[0]);
      NextSized(net, steps[0]);
      assert steps[0] in steps;
      assert forall s :: s in steps[1..] ==> s in steps;
      StepStaysGone(net, steps[0], d);
      StaysGone(next, steps[1..], d);
    }
  }

  // -------------------------------------------------------------- bounded cost

  /** Cost of a route against its hop count, at a node called me. */
  ghost function HonestRoute(me: NodeId): R.Route -> bool
  {
    (r: R.Route) =>
      if r.dst == me then r.hops == 0 && r.cost == 0.0
      else 1 <= r.hops <= R.MAX_HOPS && r.hops as real <= r.cost <= (50.0 + 1.0 / 32.0) * r.hops as real
  }

  ghost predicate HonestNode(st: State)
  {
    N.Qualities(st.neighbors) && R.AllRoutes(st.routes, HonestRoute(st.id))
  }

  ghost predicate Honest(net: Net)
  {
    Sized(net) && forall n :: n in net.nodes ==> HonestNode(net.nodes[n])
  }

  /** A freshly booted router is honest. */
  lemma BootHonest(id: NodeId, aliasBase: nat)
    ensures HonestNode(State(id, aliasBase, seq(N.MAX_NEIGHBORS, _ => N.VACANT),
                             R.SetSelf(seq(R.MAX_ROUTES, _ => R.FREE), id, 0), []))
  {
  }

  lemma CandidateHonest(me: NodeId, from: NodeId, linkCost: real, r: R.Route, now: nat)
    requires 1.0 <= linkCost <= 50.0 && HonestRoute(from)(r) && r.dst != me
    ensures var c := CandidateRoute(from, linkCost, WireRoute(RouteAdv(r.dst, r.nextHop, r.cost, r.hops)), now);
            R.Unreachable(c.cost, c.hops) || HonestRoute(me)(c)
  {
    CostQuantum(r.cost, r.hops);
  }

  lemma LearnQualities(st: State, from: NodeId, q: real, a: Announce, now: nat)
    requires N.Qualities(st.neighbors)
    ensures N.Qualities(Learn(st, from, q, a, now))
  {
    N.OperationsKeepQualities(st.neighbors, st.aliasBase, from, q, ALIAS_NONE, 0, now, 0);
    var h := N.Heard(st.neighbors, st.aliasBase, from, q, now);
    N.OperationsKeepQualities(h, st.aliasBase, from, q, ALIAS_NONE, a.caps, now, 0);
    var i := ReportIndex(a.reports, st.id);
    if i < |a.reports| {
      var c := N.SetCaps(h, from, a.caps);
      N.OperationsKeepQualities(c, st.aliasBase, from, a.reports[i].q, ALIAS_NONE, 0, now, 0);
      N.OperationsKeepQualities(N.SetTxReport(c, from, a.reports[i].q), st.aliasBase, from, q, a.reports[i].alias, 0,
                                now, 0);
    }
  }

  lemma HearsHonest(st: State, sender: State, q: real, cap: nat, caps: nat, now: nat)
    requires HonestNode(st) && HonestNode(sender) && NodeSized(sender)
    ensures HonestNode(Hears(st, sender.id, q, OnAir(sender, cap, caps), now))
  {
    var wire := OnAir(sender, cap, caps);
    if wire.Parsed? && sender.id != st.id && sender.id !in st.blocked {
      var a := wire.announce;
      var learned := Learn(st, sender.id, q, a, now);
      LearnQualities(st, sender.id, q, a, now);
      N.TxCostBounds(learned, sender.id);
      forall adv | adv in a.routes && adv.dst != st.id
        ensures var r := CandidateRoute(sender.id, N.TxCost(learned, sender.id), adv, now);
                R.Unreachable(r.cost, r.hops) || HonestRoute(st.id)(r)
      {
        var i := OnAirRoutes(sender, cap, caps, a, adv);
        assert HonestRoute(sender.id)(sender.routes[i]);
        CandidateHonest(st.id, sender.id, N.TxCost(learned, sender.id), sender.routes[i], now);
      }
      OnBeaconKeeps(st, sender.id, q, a, now, HonestRoute(st.id));
    }
  }

  lemma StepHonest(net: Net, step: Step)
    requires Honest(net)
    ensures Honest(Next(net, step))
  {
    var next := Next(net, step);
    NextSized(net, step);
    forall n | n in next.nodes
      ensures HonestNode(next.nodes[n])
    {
      var st := net.nodes[n];
      assert HonestNode(st);
      match step
      case Beacon(src, heard, cap, caps) =>
        if src in net.nodes && n in heard { HearsHonest(st, net.nodes[src], heard[n], cap, caps, net.now); }
      case Tick(k, nt, rt) =>
        if n == k {
          N.OperationsKeepQualities(st.neighbors, 0, n, 0.0, ALIAS_NONE, 0, net.now, nt);
          TickKeeps(st, net.now, nt, rt, HonestRoute(n), HonestRoute(n));
        }
      case Block(k, victim) =>
        if n == k { BlockKeeps(st, victim, HonestRoute(n)); }
      case Unblock(k, victim) =>
      case Pass(ms) =>
    }
  }

  lemma {:induction false} RunHonest(net: Net, steps: seq<Step>)
    requires Honest(net)
    ensures Honest(Run(net, steps))
    decreases |steps|
  {
    if |steps| > 0 {
      StepHonest(net, steps[0]);
      RunHonest(Next(net, steps[0]), steps[1..]);
    }
  }

  /** In every run of an honest network each stored route to another node has 1..16
      hops and costs between hops and (50 + 1/32) * hops; so no route is ever dropped
      for reaching COST_INF and no advertised cost saturates on the wire. */
  lemma CostBounded(net: Net, steps: seq<Step>, n: NodeId, i: nat)
    requires Honest(net) && n in net.nodes
    requires i < |Run(net, steps).nodes[n].routes| && Run(net, steps).nodes[n].routes[i].used
    ensures var r := Run(net, steps).nodes[n].routes[i];
      && (r.dst != n ==> 1 <= r.hops <= R.MAX_HOPS && r.hops as real <= r.cost <= (50.0 + 1.0 / 32.0) * r.hops as real)
      && (r.dst == n ==> r.hops == 0 && r.cost == 0.0)
      && r.cost < R.COST_INF && CostToU16(r.cost) < 65535
      && r.cost - 1.0 / 32.0 <= U16ToCost(CostToU16(r.cost)) <= r.cost + 1.0 / 32.0
  {
    RunHonest(net, steps);
    var r := Run(net, steps).nodes[n].routes[i];
    assert HonestNode(Run(net, steps).nodes[n]);
    assert HonestRoute(n)(r);
    CostQuantum(r.cost, 0);
  }

  // ------------------------------------------------------- routes do spread

  /** A beacon that has room for the whole announce carries all of it, quantised. */
  lemma WholeOnAir(st: State, cap: nat, caps: nat)
    requires NodeSized(st) && cap >= 4 + 18 * |Reports(st.neighbors)| + 35 * |Advs(st.routes)|
    ensures OnAir(st, cap, caps).Parsed?
    ensures OnAir(st, cap, caps).announce.routes == WireRoutes(Advs(st.routes))
  {
    var a := BuildAnnounce(st, caps % 0x1_0000);
    AnnounceSize(st, caps);
    RoundTrip(a, cap);
    assert FitRoutes(a, cap) == |a.routes| && FitReports(a, cap) == |a.reports|;
    assert a.routes[..|a.routes|] == a.routes;
  }

  lemma WireDistinct(st: State, a: Announce)
    requires R.UniqueDst(st.routes) && a.routes == WireRoutes(Advs(st.routes))
    ensures DistinctAdvs(a)
  {
    AdvsDistinct(st.routes);
  }

  /** What the sender's route to d becomes at a node that did not know d. */
  ghost predicate Spread(src: NodeId, r: R.Route, link: real, now: nat, got: Option<R.Route>)
  {
    && got.Some? && got.value.nextHop == src && got.value.hops == r.hops + 1 && got.value.updated == now
    && link + r.cost - 1.0 / 32.0 <= got.value.cost <= link + r.cost + 1.0 / 32.0
  }

  lemma AnnounceSpreads(from: State, to: State, src: NodeId, q: real, a: Announce, now: nat, d: NodeId)
    returns (link: real)
    requires R.UniqueDst(from.routes) && Router.Tidy(to) && Hearable(to, src)
    requires a.routes == WireRoutes(Advs(from.routes)) && R.Room(to.routes) > |a.routes|
    requires R.RouteTo(to.routes, d).None? && d != to.id && R.RouteTo(from.routes, d).Some?
    requires var r := R.RouteTo(from.routes, d).value;
             r.nextHop != to.id && r.hops < 16 && 0.0 <= r.cost <= 4095.0
    ensures LinkCost(OnBeacon(to, src, q, a, now).neighbors, src, link) && 0.0 < link <= 50.0
    ensures Spread(src, R.RouteTo(from.routes, d).value, link, now,
                   R.RouteTo(OnBeacon(to, src, q, a, now).routes, d))
  {
    var r := R.RouteTo(from.routes, d).value;
    WireDistinct(from, a);
    var adv := RouteAdv(r.dst, r.nextHop, r.cost, r.hops);
    AdvsAreRoutes(from.routes, adv);
    var k :| 0 <= k < |Advs(from.routes)| && Advs(from.routes)[k] == adv;
    CostQuantum(r.cost, 0);
    link := LinkCostExists(to, src, q, a, now);
    BeaconTeaches(to, src, q, a, now, k, link);
  }

  /** End to end: a node that hears a whole beacon and has room reaches, through its sender,
      every destination the sender reaches in under 16 hops but not through this node, and
      did not know before: one hop further, at the link cost plus the sender's cost, to a
      thirty-second. */
  lemma BeaconSpreads(net: Net, b: Step, n: NodeId, d: NodeId) returns (link: real)
    requires Sized(net) && b.Beacon? && b.src in net.nodes && n in net.nodes && n in b.heard
    requires var (from, to) := (net.nodes[b.src], net.nodes[n]);
             && b.cap >= 4 + 18 * |Reports(from.neighbors)| + 35 * |Advs(from.routes)|
             && R.UniqueDst(from.routes) && Router.Tidy(to) && Hearable(to, b.src)
             && R.Room(to.routes) > |Advs(from.routes)| && R.RouteTo(to.routes, d).None? && d != n
             && R.RouteTo(from.routes, d).Some?
    requires var r := R.RouteTo(net.nodes[b.src].routes, d).value;
             r.nextHop != n && r.hops < 16 && 0.0 <= r.cost <= 4095.0
    ensures var after := Next(net, b).nodes[n];
            && LinkCost(after.neighbors, b.src, link) && 0.0 < link <= 50.0
            && Spread(b.src, R.RouteTo(net.nodes[b.src].routes, d).value, link, net.now, R.RouteTo(after.routes, d))
  {
    var from, to := net.nodes[b.src], net.nodes[n];
    WholeOnAir(from, b.cap, b.caps);
    link := AnnounceSpreads(from, to, b.src, b.heard[n], OnAir(from, b.cap, b.caps).announce, net.now, d);
  }
}
