/** The routing brain (lib/mesh/router.cpp): neighbours and routes driven by
    beacons, ticks and administrative blocks. */
module Router {
  import opened Basics
  import opened LinkMetric
  import opened MeshTypes
  import R = RoutingTable
  import N = NeighborTable

  const MAX_BLOCKED: nat := 8

  datatype Report = Report(id: NodeId, q: real, alias: LinkAddr)
  datatype RouteAdv = RouteAdv(dst: NodeId, nextHop: NodeId, cost: real, hops: nat)
  datatype Announce = Announce(reports: seq<Report>, routes: seq<RouteAdv>, caps: nat, hasCaps: bool)

  /** Everything a router remembers. */
  datatype State = State(id: NodeId, aliasBase: nat, neighbors: seq<N.Neighbor>, routes: seq<R.Route>,
                         blocked: seq<NodeId>)

  // --------------------------------------------------------- blocked-link list

  predicate CanBlock(blocked: seq<NodeId>, me: NodeId, id: NodeId)
  {
    id != ZERO_ID && id != me && (id in blocked || |blocked| < MAX_BLOCKED)
  }

  function Blocked(blocked: seq<NodeId>, me: NodeId, id: NodeId): seq<NodeId>
  {
    if !CanBlock(blocked, me, id) || id in blocked then blocked else blocked + [id]
  }

  /** Index of the first occurrence of id, or |s|. */
  function IndexOf(s: seq<NodeId>, id: NodeId): (i: nat)
    ensures i <= |s|
    ensures i < |s| <==> id in s
    ensures i < |s| ==> s[i] == id
    ensures forall j :: 0 <= j < i ==> s[j] != id
  {
    if |s| == 0 || s[0] == id then 0 else 1 + IndexOf(s[1..], id)
  }

  /** Remove one occurrence by moving the last entry into its place. */
  function Unblocked(blocked: seq<NodeId>, id: NodeId): (r: seq<NodeId>)
  {
    var i := IndexOf(blocked, id);
    if i == |blocked| then blocked else blocked[i := blocked[|blocked| - 1]][..|blocked| - 1]
  }

  ghost predicate Distinct(s: seq<NodeId>)
  {
    forall i, j :: 0 <= i < j < |s| ==> s[i] != s[j]
  }

  ghost predicate BlockListOk(blocked: seq<NodeId>, me: NodeId)
  {
    |blocked| <= MAX_BLOCKED && Distinct(blocked) && me !in blocked && ZERO_ID !in blocked
  }

  /** Blocking adds exactly id (when there is room), unblocking removes exactly id. */
  lemma BlockListMeaning(blocked: seq<NodeId>, me: NodeId, id: NodeId)
    requires BlockListOk(blocked, me)
    ensures BlockListOk(Blocked(blocked, me, id), me) && BlockListOk(Unblocked(blocked, id), me)
    ensures forall x :: x in Blocked(blocked, me, id) <==> x in blocked || (x == id && CanBlock(blocked, me, id))
    ensures forall x :: x in Unblocked(blocked, id) <==> x in blocked && x != id
  {
    var i, n := IndexOf(blocked, id), |blocked|;
    var r := Unblocked(blocked, id);
    if i < n {
      forall x | x in blocked && x != id
        ensures x in r
      {
        var k :| 0 <= k < n && blocked[k] == x;
        if k == n - 1 { assert r[i] == x; } else { assert r[k] == x; }
      }
    }
  }

  // ------------------------------------------------------- beacon processing

  /** Index of the sender's report about me, or |s|. */
  function ReportIndex(s: seq<Report>, me: NodeId): (i: nat)
    ensures i <= |s|
    ensures i < |s| ==> s[i].id == me
    ensures forall j :: 0 <= j < i ==> s[j].id != me
  {
    if |s| == 0 || s[0].id == me then 0 else 1 + ReportIndex(s[1..], me)
  }

  /** What one beacon teaches about the link to its sender. */
  function Learn(st: State, from: NodeId, q: real, a: Announce, now: nat): seq<N.Neighbor>
  {
    var heard := N.SetCaps(N.Heard(st.neighbors, st.aliasBase, from, q, now), from, a.caps);
    var i := ReportIndex(a.reports, st.id);
    if i == |a.reports| then heard
    else N.SetTheirAlias(N.SetTxReport(heard, from, a.reports[i].q), from, a.reports[i].alias)
  }

  /** The route an advertisement heard from `from` offers; hop counts are bytes. */
  function CandidateRoute(from: NodeId, linkCost: real, adv: RouteAdv, now: nat): R.Route
  {
    R.Route(true, adv.dst, from, linkCost + adv.cost, (adv.hops + 1) % 256, now)
  }

  function RelaxOne(routes: seq<R.Route>, me: NodeId, from: NodeId, linkCost: real, adv: RouteAdv,
                    now: nat): seq<R.Route>
  {
    if adv.dst == me || adv.nextHop == me then routes  // ourselves, or split horizon
    else R.Offer(routes, me, CandidateRoute(from, linkCost, adv, now))
  }

  function Relax(routes: seq<R.Route>, me: NodeId, from: NodeId, linkCost: real, advs: seq<RouteAdv>,
                 now: nat): seq<R.Route>
  {
    if |advs| == 0 then routes
    else RelaxOne(Relax(routes, me, from, linkCost, advs[..|advs| - 1], now), me, from, linkCost, advs[|advs| - 1], now)
  }

  function OnBeacon(st: State, from: NodeId, q: real, a: Announce, now: nat): State
  {
    if from == st.id || from in st.blocked then st
    else
      var neighbors := Learn(st, from, q, a, now);
      var routes := Relax(R.SetSelf(st.routes, st.id, now), st.id, from, N.TxCost(neighbors, from), a.routes, now);
      st.(neighbors := neighbors, routes := routes)
  }

  // ------------------------------------------------------------- announcing

  function Reports(s: seq<N.Neighbor>): seq<Report>
  {
    if |s| == 0 then []
    else (var n, rest := s[|s| - 1], Reports(s[..|s| - 1]);
          if n.used && n.qRx >= 0.0 then rest + [Report(n.id, n.qRx, n.myAlias)] else rest)
  }

  function Advs(s: seq<R.Route>): seq<RouteAdv>
  {
    if |s| == 0 then []
    else (var r, rest := s[|s| - 1], Advs(s[..|s| - 1]);
          if r.used then rest + [RouteAdv(r.dst, r.nextHop, r.cost, r.hops)] else rest)
  }

  function BuildAnnounce(st: State, caps: nat): Announce
  {
    Announce(Reports(st.neighbors), Advs(st.routes), caps, true)
  }

  /** An announce advertises routes in use and nothing else. */
  lemma {:induction false} AdvsAreRoutes(s: seq<R.Route>, adv: RouteAdv)
    ensures adv in Advs(s) <==>
            exists i :: 0 <= i < |s| && s[i].used && adv == RouteAdv(s[i].dst, s[i].nextHop, s[i].cost, s[i].hops)
  {
    if |s| > 0 {
      var n := |s| - 1;
      AdvsAreRoutes(s[..n], adv);
      assert forall i :: 0 <= i < n ==> s[..n][i] == s[i];
    }
  }

  /** Each of them once, for a table with one route per destination. */
  lemma {:induction false} AdvsDistinct(s: seq<R.Route>)
    requires R.UniqueDst(s)
    ensures forall i, j :: 0 <= i < j < |Advs(s)| ==> Advs(s)[i].dst != Advs(s)[j].dst
  {
    if |s| > 0 {
      var n := |s| - 1;
      AdvsDistinct(s[..n]);
      forall i | 0 <= i < |Advs(s[..n])| && s[n].used
        ensures Advs(s[..n])[i].dst != s[n].dst
      {
        AdvsAreRoutes(s[..n], Advs(s[..n])[i]);
      }
    }
  }

  /** It reports every neighbour heard, with the quality and our alias for it, and no
      other. */
  lemma {:induction false} ReportsAreNeighbors(s: seq<N.Neighbor>, r: Report)
    ensures r in Reports(s) <==>
            exists i :: 0 <= i < |s| && s[i].used && s[i].qRx >= 0.0 && r == Report(s[i].id, s[i].qRx, s[i].myAlias)
  {
    if |s| > 0 {
      var n := |s| - 1;
      ReportsAreNeighbors(s[..n], r);
      assert forall i :: 0 <= i < n ==> s[..n][i] == s[i];
    }
  }

  lemma {:induction false} ReportsDistinct(s: seq<N.Neighbor>)
    requires N.UniqueIds(s)
    ensures forall i, j :: 0 <= i < j < |Reports(s)| ==> Reports(s)[i].id != Reports(s)[j].id
  {
    if |s| > 0 {
      var n := |s| - 1;
      ReportsDistinct(s[..n]);
      forall i | 0 <= i < |Reports(s[..n])| && s[n].used
        ensures Reports(s[..n])[i].id != s[n].id
      {
        ReportsAreNeighbors(s[..n], Reports(s[..n])[i]);
      }
    }
  }

  // ---------------------------------------------------------------- ageing

  function DropAll(routes: seq<R.Route>, me: NodeId, ids: seq<NodeId>): seq<R.Route>
  {
    if |ids| == 0 then routes
    else R.DropVia(DropAll(routes, me, ids[..|ids| - 1]), me, ids[|ids| - 1])
  }

  function Tick(st: State, now: nat, neighborTimeout: nat, routeTimeout: nat): State
  {
    var gone := N.Removed(st.neighbors, now, neighborTimeout);
    st.(neighbors := N.Prune(st.neighbors, now, neighborTimeout),
        routes := R.Prune(DropAll(st.routes, st.id, gone), st.id, now, routeTimeout))
  }

  function Block(st: State, id: NodeId): State
  {
    if CanBlock(st.blocked, st.id, id) && id !in st.blocked
    then st.(blocked := st.blocked + [id], routes := R.DropVia(st.routes, st.id, id))
    else st
  }

  function Unblock(st: State, id: NodeId): State
  {
    st.(blocked := Unblocked(st.blocked, id))
  }

  // -------------------------------------------------- what an operation means

  /** What a node knows, under one name per neighbour and per destination. */
  ghost predicate Tidy(st: State)
  {
    R.UniqueDst(st.routes) && N.UniqueIds(st.neighbors) && |st.neighbors| < 254
  }

  ghost predicate Hearable(st: State, from: NodeId)
  {
    from != st.id && from !in st.blocked
  }

  /** The sender's first report about this node is number i. */
  ghost predicate Reported(a: Announce, me: NodeId, i: nat)
  {
    i < |a.reports| && a.reports[i].id == me && forall j :: 0 <= j < i ==> a.reports[j].id != me
  }

  /** What a node knows of a neighbour after a beacon: freshly heard, with the quality of
      the frame and the capabilities it announced. */
  ghost predicate FreshlyHeard(had: Option<N.Neighbor>, got: N.Neighbor, from: NodeId, q: real, caps: nat, now: nat)
  {
    && got.used && got.id == from && got.lastHeard == now && got.caps == caps
    && got.qRx == EwmaQuality(if had.Some? then had.value.qRx else -1.0, q)
    && (had.Some? ==> got.myAlias == had.value.myAlias)
  }

  lemma HeardFresh(st: State, from: NodeId, q: real, caps: nat, now: nat)
    requires Tidy(st)
    ensures var t := N.SetCaps(N.Heard(st.neighbors, st.aliasBase, from, q, now), from, caps);
            var had, got := N.Entry(st.neighbors, from), N.Entry(t, from);
            && N.Knows(st.neighbors, t, from, got) && (got.None? <==> had.None? && N.Full(st.neighbors))
            && (got.Some? ==>
                && FreshlyHeard(had, got.value, from, q, caps, now)
                && (if had.Some? then got.value.qTx == had.value.qTx && got.value.theirAlias == had.value.theirAlias
                    else got.value.qTx < 0.0 && got.value.theirAlias == 0))
  {
    var heard := N.Heard(st.neighbors, st.aliasBase, from, q, now);
    N.HeardMeaning(st.neighbors, st.aliasBase, from, q, now);
    N.CapsMeaning(heard, from, caps);
  }

  /** A beacon teaches the sender's quality and capabilities, and nothing about anybody
      else. */
  lemma LearnMeaning(st: State, from: NodeId, q: real, a: Announce, now: nat)
    requires Tidy(st) && Hearable(st, from)
    ensures var after := OnBeacon(st, from, q, a, now).neighbors;
            var had, got := N.Entry(st.neighbors, from), N.Entry(after, from);
            && N.Knows(st.neighbors, after, from, got) && (got.None? <==> had.None? && N.Full(st.neighbors))
            && (got.Some? ==> FreshlyHeard(had, got.value, from, q, a.caps, now))
  {
    var capped := N.SetCaps(N.Heard(st.neighbors, st.aliasBase, from, q, now), from, a.caps);
    HeardFresh(st, from, q, a.caps, now);
    var i := ReportIndex(a.reports, st.id);
    if i < |a.reports| {
      N.TxReportMeaning(capped, from, a.reports[i].q);
      N.TheirAliasMeaning(N.SetTxReport(capped, from, a.reports[i].q), from, a.reports[i].alias);
    }
  }

  /** From the sender's first report about this node it learns how well it is heard and
      by which alias it is known there; without one it keeps what it knew. */
  lemma ReportMeaning(st: State, from: NodeId, q: real, a: Announce, now: nat)
    requires Tidy(st) && Hearable(st, from)
    requires N.Entry(OnBeacon(st, from, q, a, now).neighbors, from).Some?
    ensures var had, got := N.Entry(st.neighbors, from), N.Entry(OnBeacon(st, from, q, a, now).neighbors, from).value;
            && (forall i: nat :: Reported(a, st.id, i) ==>
                  && got.theirAlias == a.reports[i].alias
                  && if had.Some? then got.qTx == EwmaQuality(had.value.qTx, a.reports[i].q)
                     else got.qTx == EwmaQuality(-1.0, a.reports[i].q))
            && ((forall i :: 0 <= i < |a.reports| ==> a.reports[i].id != st.id) ==>
                  if had.Some? then got.qTx == had.value.qTx && got.theirAlias == had.value.theirAlias
                  else got.qTx < 0.0 && got.theirAlias == 0)
  {
    var capped := N.SetCaps(N.Heard(st.neighbors, st.aliasBase, from, q, now), from, a.caps);
    HeardFresh(st, from, q, a.caps, now);
    var i := ReportIndex(a.reports, st.id);
    if i < |a.reports| {
      N.TxReportMeaning(capped, from, a.reports[i].q);
      N.TheirAliasMeaning(N.SetTxReport(capped, from, a.reports[i].q), from, a.reports[i].alias);
      UnknownSmoothed(a.reports[i].q, N.Entry(capped, from).value.qTx);
    }
  }

  /** Whatever negative value stands for an unknown quality. */
  lemma UnknownSmoothed(q: real, unknown: real)
    ensures unknown < 0.0 ==> EwmaQuality(unknown, q) == EwmaQuality(-1.0, q)
  {
  }

  /** A beacon without advertisements refreshes the self route and no other. */
  lemma BeaconPins(st: State, from: NodeId, q: real, a: Announce, now: nat, d: NodeId)
    requires Tidy(st) && Hearable(st, from) && a.routes == []
    ensures var t := OnBeacon(st, from, q, a, now);
            && R.UniqueDst(t.routes) && R.Room(t.routes) + 1 >= R.Room(st.routes)
            && (d != st.id ==> R.RouteTo(t.routes, d) == R.RouteTo(st.routes, d))
            && (R.RouteTo(st.routes, st.id).Some? || R.Room(st.routes) > 0 ==>
                R.RouteTo(t.routes, st.id) == Some(R.Route(true, st.id, st.id, 0.0, 0, now)))
  {
    R.SetSelfMeaning(st.routes, st.id, now, d);
  }

  /** How an advertisement heard from a neighbour turns the route cur to d into got: not
      at all if it is about another destination, this node, or a path back through it.
      Otherwise the offer, one link further than the sender says, is taken from the next
      hop in use whatever it costs, from another if cheaper by more than 1e-4, and for an
      unknown destination if there is room; one of more than 16 hops or of a million
      withdraws the route through the sender. */
  ghost predicate Taught(me: NodeId, from: NodeId, adv: RouteAdv, cost: real, now: nat, room: bool,
                         d: NodeId, cur: Option<R.Route>, got: Option<R.Route>)
  {
    var hops := (adv.hops + 1) % 256;
    got == if d != adv.dst || d == me || adv.nextHop == me then cur
           else if hops > 16 || cost >= 1000000.0 then
             if cur.Some? && cur.value.nextHop == from then None else cur
           else if (match cur
                    case None => room
                    case Some(r) => r.nextHop == from || cost < r.cost - 0.0001)
           then Some(R.Route(true, d, from, cost, hops, now)) else cur
  }

  /** A beacon cut off before advertisement n. */
  function Cut(a: Announce, n: nat): Announce
    requires n <= |a.routes|
  {
    a.(routes := a.routes[..n])
  }

  /** The first hop costs one over the quality the sender hears us with, or 50. */
  ghost predicate LinkCost(neighbors: seq<N.Neighbor>, from: NodeId, cost: real)
  {
    match N.Entry(neighbors, from)
    case None => cost == 50.0
    case Some(n) => if n.qTx >= 0.02 then cost * n.qTx == 1.0 else cost == 50.0
  }

  /** One more advertisement, on the table the beacon without it leaves. */
  lemma BeaconStep(st: State, from: NodeId, q: real, a: Announce, now: nat, n: nat, link: real, d: NodeId)
    requires Tidy(st) && Hearable(st, from) && n + 1 == |a.routes|
    requires LinkCost(OnBeacon(st, from, q, a, now).neighbors, from, link)
    ensures var before, after := OnBeacon(st, from, q, Cut(a, n), now), OnBeacon(st, from, q, a, now);
            && after.neighbors == before.neighbors && R.UniqueDst(after.routes)
            && R.Room(after.routes) + 1 >= R.Room(before.routes)
            && Taught(st.id, from, a.routes[n], link + a.routes[n].cost, now, R.Room(before.routes) > 0, d,
                      R.RouteTo(before.routes, d), R.RouteTo(after.routes, d))
  {
    BeaconUnique(st, from, q, Cut(a, n), now);
    BeaconLast(st, from, q, a, now, n, link);
    RelaxRule(OnBeacon(st, from, q, Cut(a, n), now).routes, st.id, from, link, a.routes[n], now, d);
  }

  lemma BeaconLast(st: State, from: NodeId, q: real, a: Announce, now: nat, n: nat, link: real)
    requires Hearable(st, from) && n + 1 == |a.routes|
    requires LinkCost(OnBeacon(st, from, q, a, now).neighbors, from, link)
    ensures var before, after := OnBeacon(st, from, q, Cut(a, n), now), OnBeacon(st, from, q, a, now);
            && after.neighbors == before.neighbors
            && after.routes == RelaxOne(before.routes, st.id, from, link, a.routes[n], now)
  {
    var learned := Learn(st, from, q, a, now);
    N.TxCostMeaning(learned, from);
    SameLink(learned, from, link, N.TxCost(learned, from));
  }

  lemma RelaxRule(s: seq<R.Route>, me: NodeId, from: NodeId, link: real, adv: RouteAdv, now: nat, d: NodeId)
    requires R.UniqueDst(s)
    ensures var t := RelaxOne(s, me, from, link, adv, now);
            && R.UniqueDst(t) && R.Room(t) + 1 >= R.Room(s)
            && Taught(me, from, adv, link + adv.cost, now, R.Room(s) > 0, d, R.RouteTo(s, d), R.RouteTo(t, d))
  {
    OfferRule(s, me, CandidateRoute(from, link, adv, now), d);
  }

  lemma OfferRule(s: seq<R.Route>, me: NodeId, r: R.Route, d: NodeId)
    requires R.UniqueDst(s) && r.used
    ensures var cur, got := R.RouteTo(s, d), R.RouteTo(R.Offer(s, me, r), d);
            && R.UniqueDst(R.Offer(s, me, r)) && R.Room(R.Offer(s, me, r)) + 1 >= R.Room(s)
            && (d != r.dst || d == me ==> got == cur)
            && (d == r.dst && d != me ==>
                got == if r.hops > 16 || r.cost >= 1000000.0 then
                         if cur.Some? && cur.value.nextHop == r.nextHop then None else cur
                       else if (match cur
                                case None => R.Room(s) > 0
                                case Some(c) => c.nextHop == r.nextHop || r.cost < c.cost - 0.0001)
                       then Some(r) else cur)
  {
    R.OfferMeaning(s, me, r, d);
    R.OfferRoom(s, me, r);
    R.RoomFound(s);
  }

  lemma {:induction false} BeaconUnique(st: State, from: NodeId, q: real, a: Announce, now: nat)
    requires Tidy(st) && Hearable(st, from)
    ensures R.UniqueDst(OnBeacon(st, from, q, a, now).routes)
    decreases |a.routes|
  {
    if |a.routes| == 0 {
      BeaconPins(st, from, q, a, now, st.id);
    } else {
      var n := |a.routes| - 1;
      var shorter := a.(routes := a.routes[..n]);
      BeaconUnique(st, from, q, shorter, now);
      var link := N.TxCost(Learn(st, from, q, a, now), from);
      R.OfferMeaning(OnBeacon(st, from, q, shorter, now).routes, st.id, CandidateRoute(from, link, a.routes[n], now),
                     st.id);
    }
  }

  ghost predicate Advertised(a: Announce, d: NodeId)
  {
    exists i :: 0 <= i < |a.routes| && a.routes[i].dst == d
  }

  ghost predicate DistinctAdvs(a: Announce)
  {
    forall i, j :: 0 <= i < j < |a.routes| ==> a.routes[i].dst != a.routes[j].dst
  }

  lemma SameLink(neighbors: seq<N.Neighbor>, from: NodeId, x: real, y: real)
    requires LinkCost(neighbors, from, x) && LinkCost(neighbors, from, y)
    ensures x == y
  {
    match N.Entry(neighbors, from)
    case None =>
    case Some(n) => if n.qTx >= 0.02 { SameInverse(x, y, n.qTx); }
  }

  lemma SameInverse(x: real, y: real, q: real)
    requires x * q == 1.0 && y * q == 1.0
    ensures x == y
  {
    assert x == x * (y * q) == y * (x * q);
  }

  lemma CutAgain(a: Announce, n: nat, k: nat)
    requires k <= n <= |a.routes|
    ensures Cut(Cut(a, n), k) == Cut(a, k)
  {
  }

  /** Destinations a beacon does not advertise keep their routes. */
  lemma {:induction false} BeaconElsewhere(st: State, from: NodeId, q: real, a: Announce, now: nat, link: real,
                                           d: NodeId)
    requires Tidy(st) && Hearable(st, from) && d != st.id && !Advertised(a, d)
    requires LinkCost(OnBeacon(st, from, q, a, now).neighbors, from, link)
    ensures R.RouteTo(OnBeacon(st, from, q, a, now).routes, d) == R.RouteTo(st.routes, d)
    decreases |a.routes|
  {
    if |a.routes| == 0 {
      BeaconPins(st, from, q, a, now, d);
    } else {
      var n := |a.routes| - 1;
      var init := Cut(a, n);
      assert forall i :: 0 <= i < n ==> init.routes[i] == a.routes[i];
      BeaconElsewhere(st, from, q, init, now, link, d);
      BeaconStep(st, from, q, a, now, n, link, d);
      assert a.routes[n].dst != d;
    }
  }

  /** A whole beacon: each advertised destination gets the route the rule gives it on the
      one known before, room being what the advertisements ahead of it left. */
  lemma {:induction false} BeaconMeaning(st: State, from: NodeId, q: real, a: Announce, now: nat, k: nat, link: real)
    requires Tidy(st) && Hearable(st, from) && DistinctAdvs(a) && k < |a.routes| && a.routes[k].dst != st.id
    requires LinkCost(OnBeacon(st, from, q, a, now).neighbors, from, link)
    ensures var adv := a.routes[k];
            Taught(st.id, from, adv, link + adv.cost, now, R.Room(OnBeacon(st, from, q, Cut(a, k), now).routes) > 0,
                   adv.dst,
                   R.RouteTo(st.routes, adv.dst), R.RouteTo(OnBeacon(st, from, q, a, now).routes, adv.dst))
    decreases |a.routes|
  {
    var n, d := |a.routes| - 1, a.routes[k].dst;
    BeaconStep(st, from, q, a, now, n, link, d);
    if k == n {
      BeaconElsewhere(st, from, q, Cut(a, n), now, link, d);
    } else {
      CutAgain(a, n, k);
      BeaconMeaning(st, from, q, Cut(a, n), now, k, link);
    }
  }

  lemma {:induction false} BeaconRoom(st: State, from: NodeId, q: real, a: Announce, now: nat, link: real)
    requires Tidy(st) && Hearable(st, from) && LinkCost(OnBeacon(st, from, q, a, now).neighbors, from, link)
    ensures R.Room(OnBeacon(st, from, q, a, now).routes) + |a.routes| + 1 >= R.Room(st.routes)
    decreases |a.routes|
  {
    if |a.routes| == 0 {
      BeaconPins(st, from, q, a, now, st.id);
    } else {
      var n := |a.routes| - 1;
      BeaconRoom(st, from, q, Cut(a, n), now, link);
      BeaconStep(st, from, q, a, now, n, link, st.id);
    }
  }

  /** With room enough, every destination the sender reaches and this node does not know
      is reached through the sender, one hop further. */
  lemma BeaconTeaches(st: State, from: NodeId, q: real, a: Announce, now: nat, k: nat, link: real)
    requires Tidy(st) && Hearable(st, from) && DistinctAdvs(a) && R.Room(st.routes) > |a.routes|
    requires k < |a.routes| && a.routes[k].dst != st.id && a.routes[k].nextHop != st.id
    requires R.RouteTo(st.routes, a.routes[k].dst) == None && a.routes[k].hops < 16 && a.routes[k].cost < 999950.0
    requires LinkCost(OnBeacon(st, from, q, a, now).neighbors, from, link)
    ensures 0.0 < link <= 50.0
    ensures R.RouteTo(OnBeacon(st, from, q, a, now).routes, a.routes[k].dst) ==
            Some(R.Route(true, a.routes[k].dst, from, link + a.routes[k].cost, a.routes[k].hops + 1, now))
  {
    BeaconRoom(st, from, q, Cut(a, k), now, link);
    BeaconMeaning(st, from, q, a, now, k, link);
    LinkBounds(OnBeacon(st, from, q, a, now).neighbors, from, link);
  }

  lemma LinkBounds(neighbors: seq<N.Neighbor>, from: NodeId, cost: real)
    requires LinkCost(neighbors, from, cost)
    ensures 0.0 < cost <= 50.0
  {
    match N.Entry(neighbors, from)
    case None =>
    case Some(n) => if n.qTx >= 0.02 { SameInverse(cost, 1.0 / n.qTx, n.qTx); }
  }

  /** And there always is such a first-hop cost. */
  lemma LinkCostExists(st: State, from: NodeId, q: real, a: Announce, now: nat) returns (link: real)
    requires Hearable(st, from)
    ensures LinkCost(OnBeacon(st, from, q, a, now).neighbors, from, link)
  {
    link := N.TxCost(Learn(st, from, q, a, now), from);
    N.TxCostMeaning(Learn(st, from, q, a, now), from);
  }

  lemma {:induction false} DropAllMeaning(routes: seq<R.Route>, me: NodeId, ids: seq<NodeId>, d: NodeId)
    requires R.UniqueDst(routes)
    ensures R.UniqueDst(DropAll(routes, me, ids))
    ensures var r := R.RouteTo(routes, d);
            R.RouteTo(DropAll(routes, me, ids), d) == if r.Some? && d != me && r.value.nextHop in ids then None else r
  {
    if |ids| > 0 {
      var n := |ids| - 1;
      DropAllMeaning(routes, me, ids[..n], d);
      assert ids == ids[..n] + [ids[n]];
      R.DropViaMeaning(DropAll(routes, me, ids[..n]), me, ids[n], d);
    }
  }

  /** A tick forgets exactly the neighbours not heard in time, and the routes to others
      that went through one of them or were not renewed in time. */
  lemma TickMeaning(st: State, now: nat, nt: nat, rt: nat, x: NodeId, d: NodeId)
    requires Tidy(st)
    ensures var t, n, r := Tick(st, now, nt, rt), N.Entry(st.neighbors, x), R.RouteTo(st.routes, d);
            && t.id == st.id && t.blocked == st.blocked
            && N.Entry(t.neighbors, x) == (if n.Some? && Elapsed32(now, n.value.lastHeard) > nt then None else n)
            && R.RouteTo(t.routes, d) ==
               if r.Some? && d != st.id && (Elapsed32(now, r.value.updated) > rt || Lost(st, now, nt, r.value.nextHop))
               then None else r
  {
    N.PruneMeaning(st.neighbors, now, nt, x);
    var gone := N.Removed(st.neighbors, now, nt);
    DropAllMeaning(st.routes, st.id, gone, d);
    R.PruneMeaning(DropAll(st.routes, st.id, gone), st.id, now, rt, d);
    if R.RouteTo(st.routes, d).Some? { N.PruneMeaning(st.neighbors, now, nt, R.RouteTo(st.routes, d).value.nextHop); }
  }

  ghost predicate Lost(st: State, now: nat, nt: nat, hop: NodeId)
  {
    N.Entry(st.neighbors, hop).Some? && Elapsed32(now, N.Entry(st.neighbors, hop).value.lastHeard) > nt
  }

  /** A new block takes the routes to others through the victim with it; nothing else
      does, and unblocking brings nothing back. */
  lemma BlockMeaning(st: State, id: NodeId, d: NodeId)
    requires R.UniqueDst(st.routes) && BlockListOk(st.blocked, st.id)
    ensures var t, r := Block(st, id), R.RouteTo(st.routes, d);
            var taken := id != 0 && id != st.id && id !in st.blocked && |st.blocked| < 8;
            && t.id == st.id && t.neighbors == st.neighbors
            && (forall x :: x in t.blocked <==> x in st.blocked || (taken && x == id))
            && R.RouteTo(t.routes, d) == if taken && r.Some? && d != st.id && r.value.nextHop == id then None else r
    ensures var t := Unblock(st, id);
            && t.id == st.id && t.neighbors == st.neighbors && t.routes == st.routes
            && (forall x :: x in t.blocked <==> x in st.blocked && x != id)
  {
    BlockListMeaning(st.blocked, st.id, id);
    R.DropViaMeaning(st.routes, st.id, id, d);
  }

  // ---------------------------------------- what an operation does to routes

  /** A beacon leaves every route old, pinned to self, or taken from one advertisement. */
  lemma {:induction false} RelaxKeeps(routes: seq<R.Route>, me: NodeId, from: NodeId, linkCost: real,
                                      advs: seq<RouteAdv>, now: nat, p: R.Route -> bool)
    requires R.AllRoutes(routes, p)
    requires forall adv :: adv in advs && adv.dst != me ==>
               var r := CandidateRoute(from, linkCost, adv, now); R.Unreachable(r.cost, r.hops) || p(r)
    ensures R.AllRoutes(Relax(routes, me, from, linkCost, advs, now), p)
  {
    if |advs| > 0 {
      var n := |advs| - 1;
      RelaxKeeps(routes, me, from, linkCost, advs[..n], now, p);
      assert advs[n] in advs;
      R.OfferKeeps(Relax(routes, me, from, linkCost, advs[..n], now), me, CandidateRoute(from, linkCost, advs[n], now),
                   p);
    }
  }

  lemma OnBeaconKeeps(st: State, from: NodeId, q: real, a: Announce, now: nat, p: R.Route -> bool)
    requires R.AllRoutes(st.routes, p)
    requires p(R.Route(true, st.id, st.id, 0.0, 0, now))
    requires forall adv :: adv in a.routes && adv.dst != st.id ==>
               var r := CandidateRoute(from, N.TxCost(Learn(st, from, q, a, now), from), adv, now);
               R.Unreachable(r.cost, r.hops) || p(r)
    ensures R.AllRoutes(OnBeacon(st, from, q, a, now).routes, p)
  {
    if from != st.id && from !in st.blocked {
      RelaxKeeps(R.SetSelf(st.routes, st.id, now), st.id, from, N.TxCost(Learn(st, from, q, a, now), from), a.routes,
                 now, p);
    }
  }

  lemma {:induction false} DropAllKeeps(routes: seq<R.Route>, me: NodeId, ids: seq<NodeId>, p: R.Route -> bool)
    requires R.AllRoutes(routes, p)
    ensures R.AllRoutes(DropAll(routes, me, ids), p)
  {
    if |ids| > 0 {
      DropAllKeeps(routes, me, ids[..|ids| - 1], p);
      R.DropViaKeeps(DropAll(routes, me, ids[..|ids| - 1]), me, ids[|ids| - 1], p);
    }
  }

  /** A tick only removes routes, and removes every one older than the timeout. */
  lemma TickKeeps(st: State, now: nat, nt: nat, rt: nat, p: R.Route -> bool, q: R.Route -> bool)
    requires R.AllRoutes(st.routes, p)
    requires forall r: R.Route :: p(r) && (r.dst == st.id || Elapsed32(now, r.updated) <= rt) ==> q(r)
    ensures R.AllRoutes(Tick(st, now, nt, rt).routes, q)
  {
    var gone := N.Removed(st.neighbors, now, nt);
    DropAllKeeps(st.routes, st.id, gone, p);
    R.PruneKeeps(DropAll(st.routes, st.id, gone), st.id, now, rt, p, q);
  }

  lemma BlockKeeps(st: State, id: NodeId, p: R.Route -> bool)
    requires R.AllRoutes(st.routes, p)
    ensures R.AllRoutes(Block(st, id).routes, p) && R.AllRoutes(Unblock(st, id).routes, p)
  {
    R.DropViaKeeps(st.routes, st.id, id, p);
  }

  // -------------------------------------------------------------- the router

  class Node {
    const id: NodeId
    const neighbors: N.Table
    const routes: R.Table
    const blocked: array<NodeId>
    var nBlocked: nat

    ghost predicate Valid()
      reads this, neighbors, neighbors.slots, routes, routes.slots, blocked
    {
      && neighbors.Valid() && routes.Valid() && routes.self == id
      && blocked.Length == MAX_BLOCKED && nBlocked <= MAX_BLOCKED
      && BlockListOk(blocked[..nBlocked], id)
    }

    /** The abstract state this object implements. */
    ghost function View(): State
      reads this, neighbors, neighbors.slots, routes.slots, blocked
      requires nBlocked <= blocked.Length
    {
      State(id, neighbors.aliasBase, neighbors.slots[..], routes.slots[..], blocked[..nBlocked])
    }

    constructor (id: NodeId, aliasBase: nat)
      ensures Valid() && fresh(neighbors) && fresh(neighbors.slots) && fresh(routes) && fresh(routes.slots)
                && fresh(blocked)
      ensures this.id == id && neighbors.aliasBase == aliasBase && nBlocked == 0
      ensures View().neighbors == seq(N.MAX_NEIGHBORS, _ => N.VACANT)
      ensures View().routes == R.SetSelf(seq(R.MAX_ROUTES, _ => R.FREE), id, 0)
    {
      this.id := id;
      routes := new R.Table();
      neighbors := new N.Table(aliasBase);
      blocked := new NodeId[MAX_BLOCKED](_ => ZERO_ID);
      nBlocked := 0;
      new;
      assert routes.slots[..] == seq(R.MAX_ROUTES, _ => R.FREE);
      routes.PinSelf(id, 0);
    }

    method IsBlocked(id: NodeId) returns (yes: bool)
      requires nBlocked <= blocked.Length
      ensures yes <==> id in blocked[..nBlocked]
    {
      var i := 0;
      while i < nBlocked
        invariant 0 <= i <= nBlocked
        invariant id !in blocked[..i]
      {
        if blocked[i] == id { return true; }
        i := i + 1;
      }
      yes := false;
    }

    method BlockLink(id: NodeId) returns (ok: bool)
      requires Valid()
      modifies `nBlocked, blocked, routes.slots
      ensures Valid()
      ensures View() == Block(old(View()), id)
      ensures ok == CanBlock(old(View()).blocked, this.id, id)
    {
      BlockListMeaning(blocked[..nBlocked], this.id, id);
      if id == ZERO_ID || id == this.id { return false; }
      var already := IsBlocked(id);
      if already { return true; }
      if nBlocked >= MAX_BLOCKED { return false; }
      blocked[nBlocked] := id;
      nBlocked := nBlocked + 1;
      assert blocked[..nBlocked] == old(blocked[..nBlocked]) + [id];
      routes.Drop(id);
      ok := true;
    }

    method UnblockLink(id: NodeId)
      requires Valid()
      modifies `nBlocked, blocked
      ensures Valid()
      ensures View() == Unblock(old(View()), id)
    {
      ghost var was := blocked[..nBlocked];
      BlockListMeaning(was, this.id, id);
      var i := 0;
      while i < nBlocked && blocked[i] != id
        invariant 0 <= i <= nBlocked
        invariant forall j :: 0 <= j < i ==> blocked[j] != id
      {
        i := i + 1;
      }
      IndexAt(was, id, i);
      if i < nBlocked { Compact(i); }
    }

    /** Move the last entry into place i. */
    method Compact(i: nat)
      requires i < nBlocked <= blocked.Length
      modifies `nBlocked, blocked
      ensures nBlocked == old(nBlocked) - 1
      ensures blocked[..nBlocked] == old(blocked[..nBlocked])[i := old(blocked[nBlocked - 1])][..nBlocked]
    {
      blocked[i] := blocked[nBlocked - 1];
      nBlocked := nBlocked - 1;
    }

    static lemma IndexAt(s: seq<NodeId>, id: NodeId, i: nat)
      requires i <= |s| && (i < |s| ==> s[i] == id) && forall j :: 0 <= j < i ==> s[j] != id
      ensures IndexOf(s, id) == i
    {
    }

    /** First half of a beacon: q_rx from the frame, q_tx and alias from the report. */
    method LearnLink(from: NodeId, q: real, a: Announce, now: nat)
      requires neighbors.Valid() && nBlocked <= blocked.Length
      modifies neighbors.slots
      ensures neighbors.Valid()
      ensures neighbors.slots[..] == Learn(old(View()), from, q, a, now)
    {
      ghost var st := View();
      var known := neighbors.Hear(from, q, now);
      neighbors.LearnCaps(from, a.caps);
      var i := FirstReport(a.reports);
      if i < |a.reports| {
        neighbors.ReportTx(from, a.reports[i].q);
        neighbors.LearnAlias(from, a.reports[i].alias);
      }
    }

    /** The first report about this node, if any. */
    method FirstReport(reports: seq<Report>) returns (i: nat)
      ensures i == ReportIndex(reports, id)
    {
      i := 0;
      while i < |reports| && reports[i].id != id
        invariant 0 <= i <= |reports|
        invariant forall j :: 0 <= j < i ==> reports[j].id != id
      {
        i := i + 1;
      }
    }

    /** Second half of a beacon: relax routes, skipping ourselves and split horizon. */
    method RelaxRoutes(from: NodeId, linkCost: real, advs: seq<RouteAdv>, now: nat)
      requires routes.Valid() && routes.self == id
      modifies routes.slots
      ensures routes.Valid()
      ensures routes.slots[..] == Relax(old(routes.slots[..]), id, from, linkCost, advs, now)
    {
      ghost var pinned := routes.slots[..];
      var k := 0;
      while k < |advs|
        invariant 0 <= k <= |advs|
        invariant routes.Valid()
        invariant routes.slots[..] == Relax(pinned, id, from, linkCost, advs[..k], now)
      {
        var adv := advs[k];
        assert advs[..k + 1][..k] == advs[..k];
        if adv.dst != id && adv.nextHop != id {
          var changed := routes.Consider(adv.dst, from, linkCost + adv.cost, (adv.hops + 1) % 256, now);
        }
        k := k + 1;
      }
      assert advs[..k] == advs;
    }

    /** Process a received beacon: learn the link, then relax routes. */
    method Beacon(from: NodeId, q: real, a: Announce, now: nat)
      requires Valid()
      modifies neighbors.slots, routes`self, routes.slots
      ensures Valid()
      ensures View() == OnBeacon(old(View()), from, q, a, now)
    {
      if from == id { return; }
      var down := IsBlocked(from);
      if down { return; }
      LearnLink(from, q, a, now);
      routes.PinSelf(id, now);
      var linkCost := neighbors.CostTo(from);
      RelaxRoutes(from, linkCost, a.routes, now);
    }

    method Announcement(caps: nat) returns (out: Announce)
      requires Valid()
      ensures out == BuildAnnounce(View(), caps)
    {
      var reports, advs := [], [];
      var i := 0;
      while i < N.MAX_NEIGHBORS
        invariant 0 <= i <= N.MAX_NEIGHBORS
        invariant reports == Reports(neighbors.slots[..i])
      {
        assert neighbors.slots[..i + 1][..i] == neighbors.slots[..i];
        var n := neighbors.slots[i];
        if n.used && !(n.qRx < 0.0) {
          reports := reports + [Report(n.id, n.qRx, n.myAlias)];
        }
        i := i + 1;
      }
      i := 0;
      while i < R.MAX_ROUTES
        invariant 0 <= i <= R.MAX_ROUTES
        invariant advs == Advs(routes.slots[..i])
      {
        assert routes.slots[..i + 1][..i] == routes.slots[..i];
        var r := routes.slots[i];
        if r.used {
          advs := advs + [RouteAdv(r.dst, r.nextHop, r.cost, r.hops)];
        }
        i := i + 1;
      }
      assert neighbors.slots[..N.MAX_NEIGHBORS] == neighbors.slots[..];
      assert routes.slots[..R.MAX_ROUTES] == routes.slots[..];
      out := Announce(reports, advs, caps, true);
    }

    /** Age out dead neighbours and the routes that depended on them. */
    method Age(now: nat, neighborTimeout: nat, routeTimeout: nat)
      requires Valid()
      modifies neighbors.slots, routes.slots
      ensures Valid()
      ensures View() == Tick(old(View()), now, neighborTimeout, routeTimeout)
    {
      var gone := neighbors.Expire(now, neighborTimeout);
      ghost var was := routes.slots[..];
      var i := 0;
      while i < |gone|
        modifies routes.slots
        invariant 0 <= i <= |gone|
        invariant routes.Valid()
        invariant routes.slots[..] == DropAll(was, id, gone[..i])
      {
        assert gone[..i + 1][..i] == gone[..i];
        routes.Drop(gone[i]);
        i := i + 1;
      }
      assert gone[..i] == gone;
      routes.Expire(now, routeTimeout);
    }
  }
}
