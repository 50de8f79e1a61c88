/** How a node is observed (controller/internal/policy/engine.go): the classic
    worst-neighbour view and the connectivity floor, which keeps only the links the
    network needs. */
module ConnFloor {
  import opened Topo
  import LinkMetric

  /** Demodulation floor per spreading factor (policy.go). */
  function SnrLimit(sf: int): real
  {
    if sf == 5 then -2.5 else if sf == 6 then -5.0 else if sf == 7 then -7.5 else if sf == 8 then -10.0
    else if sf == 9 then -12.5 else if sf == 10 then -15.0 else if sf == 11 then -17.5 else if sf == 12 then -20.0
    else -12.5
  }

  function QToSnr(q: real): real { -17.0 + q * 25.0 }

  /** SNR of a usable link: measured, or estimated from its quality ("soft"). */
  function LinkSnr(l: Link): real { if l.rssi != 0 then l.snr as real else QToSnr(l.q) }

  datatype Observation = Observation(hasObs: bool, margin: real, snr: real, soft: bool, govPeer: Id)

  function Margin(l: Link, sf: int): real { LinkSnr(l) - SnrLimit(sf) }

  /** The observation governed by this link. */
  function View(l: Link, sf: int): Observation { Observation(true, Margin(l, sf), LinkSnr(l), l.rssi == 0, l.peer) }

  const UNSEEN: Observation := Observation(false, 0.0, 0.0, false, NO_ID)

  /** A link the observation of `node` looks at. */
  predicate Outbound(l: Link, node: Id, now: int, maxAge: int)
  {
    l.from == node && Usable(l, now, maxAge)
  }

  /** Some neighbour currently hears the node. */
  predicate IsHeard(links: seq<Link>, node: Id, now: int, maxAge: int)
  {
    exists i :: 0 <= i < |links| && Outbound(links[i], node, now, maxAge)
  }

  // ------------------------------------------------------------ worst neighbour

  /** The view of a usable outbound link of least margin, if there is any. */
  ghost predicate Classic(links: seq<Link>, node: Id, sf: int, now: int, maxAge: int, obs: Observation)
  {
    && (obs.hasObs <==> IsHeard(links, node, now, maxAge)) && (!obs.hasObs ==> obs == UNSEEN)
    && (obs.hasObs ==>
        exists i :: 0 <= i < |links| && Outbound(links[i], node, now, maxAge) && obs == View(links[i], sf))
    && (obs.hasObs ==> forall i :: 0 <= i < |links| && Outbound(links[i], node, now, maxAge) ==>
        obs.margin <= Margin(links[i], sf))
  }

  /** Scan every usable outbound link and keep the least margin. */
  method Observe(links: seq<Link>, node: Id, sf: int, now: int, maxAge: int) returns (obs: Observation)
    ensures Classic(links, node, sf, now, maxAge, obs) && ShowsWeakest(links, node, sf, now, maxAge, obs)
  {
    obs := UNSEEN;
    var limit := SnrLimit(sf);
    var best := 0.0;
    ghost var gov := 0;
    var i := 0;
    while i < |links|
      invariant 0 <= i <= |links|
      invariant !obs.hasObs ==> obs == UNSEEN && forall j :: 0 <= j < i ==> !Outbound(links[j], node, now, maxAge)
      invariant obs.hasObs ==> 0 <= gov < i && Outbound(links[gov], node, now, maxAge) && obs == View(links[gov], sf)
      invariant obs.hasObs ==> best == obs.margin && forall j :: 0 <= j < i && Outbound(links[j], node, now, maxAge) ==>
                  best <= Margin(links[j], sf)
    {
      var l := links[i];
      if l.from == node && now - l.at < maxAge && (l.rssi != 0 || l.q > 0.0) {
        var snr := if l.rssi != 0 then l.snr as real else QToSnr(l.q);
        var m := snr - limit;
        if !obs.hasObs || m < best {
          best := m;
          gov := i;
          obs := Observation(true, m, snr, l.rssi == 0, l.peer);
        }
      }
      i := i + 1;
    }
    ClassicMeaning(links, node, sf, now, maxAge, obs);
  }

  // -------------------------------------------------------------- reachability

  type Adjacency = map<Id, seq<Id>>

  predicate Adjacent(adj: Adjacency, a: Id, b: Id)
  {
    a in adj && b in adj[a]
  }

  /** Some recent link with a quality or a measurement joins a and b, in either direction. */
  predicate Joined(links: seq<Link>, now: int, maxAge: int, a: Id, b: Id)
  {
    exists i :: 0 <= i < |links| && now - links[i].at < maxAge && (links[i].rssi != 0 || links[i].q > 0.0)
      && ((links[i].from == a && links[i].peer == b) || (links[i].from == b && links[i].peer == a))
  }

  /** Adjacency is exactly that. */
  ghost predicate IsAdjacency(links: seq<Link>, now: int, maxAge: int, adj: Adjacency)
  {
    forall a, b :: Adjacent(adj, a, b) <==> Joined(links, now, maxAge, a, b)
  }

  function Neighbours(adj: Adjacency, n: Id): seq<Id>
  {
    if n in adj then adj[n] else []
  }

  function AddEdge(adj: Adjacency, a: Id, b: Id): (r: Adjacency)
    ensures forall x, y :: Adjacent(r, x, y) <==> Adjacent(adj, x, y) || (x == a && y == b)
  {
    adj[a := Neighbours(adj, a) + [b]]
  }

  method AdjUndirected(links: seq<Link>, now: int, maxAge: int) returns (adj: Adjacency)
    ensures IsAdjacency(links, now, maxAge, adj)
  {
    adj := map[];
    var i := 0;
    while i < |links|
      invariant 0 <= i <= |links|
      invariant IsAdjacency(links[..i], now, maxAge, adj)
    {
      var l := links[i];
      if now - l.at < maxAge && !(l.rssi == 0 && l.q <= 0.0) {
        adj := AddEdge(AddEdge(adj, l.from, l.peer), l.peer, l.from);
      }
      i := i + 1;
    }
    assert links[..i] == links;
  }

  /** p is a path that avoids x. */
  ghost predicate PathAvoiding(adj: Adjacency, p: seq<Id>, x: Id)
  {
    && |p| > 0
    && (forall k :: 0 <= k < |p| ==> p[k] != x)
    && (forall k :: 0 < k < |p| ==> Adjacent(adj, p[k - 1], p[k]))
  }

  ghost predicate ReachesAvoiding(adj: Adjacency, s: Id, t: Id, x: Id)
  {
    exists p :: PathAvoiding(adj, p, x) && p[0] == s && p[|p| - 1] == t
  }

  lemma ExtendPath(adj: Adjacency, s: Id, n: Id, m: Id, x: Id)
    requires ReachesAvoiding(adj, s, n, x) && Adjacent(adj, n, m) && m != x
    ensures ReachesAvoiding(adj, s, m, x)
  {
    var p :| PathAvoiding(adj, p, x) && p[0] == s && p[|p| - 1] == n;
    var q := p + [m];
    assert PathAvoiding(adj, q, x) && q[0] == s && q[|q| - 1] == m;
  }

  /** A set closed under avoiding steps contains every path that starts in it. */
  lemma {:induction false} ClosedContainsPaths(adj: Adjacency, seen: set<Id>, p: seq<Id>, x: Id, k: nat)
    requires PathAvoiding(adj, p, x) && p[0] in seen && k < |p|
    requires forall n, m :: n in seen && Adjacent(adj, n, m) && m != x ==> m in seen
    ensures p[k] in seen
  {
    if k > 0 {
      ClosedContainsPaths(adj, seen, p, x, k - 1);
      assert Adjacent(adj, p[k - 1], p[k]);
    }
  }

  ghost function Universe(adj: Adjacency, start: Id): set<Id>
  {
    {start} + set a, b | a in adj && b in adj[a] :: b
  }

  /** Breadth-first search from start that never enters `exclude`. */
  method ReachExcluding(adj: Adjacency, start: Id, exclude: Id) returns (seen: set<Id>)
    ensures start == NO_ID ==> seen == {}
    ensures start != NO_ID ==> forall t :: t in seen <==> ReachesAvoiding(adj, start, t, exclude)
  {
    seen := {};
    if start == NO_ID || start == exclude {
      forall t
        ensures !ReachesAvoiding(adj, start, t, exclude) || start == NO_ID
      {
      }
      return;
    }
    seen := {start};
    var q := [start];
    assert PathAvoiding(adj, [start], exclude);
    while |q| > 0
      invariant start in seen && seen <= Universe(adj, start)
      invariant forall t :: t in seen ==> ReachesAvoiding(adj, start, t, exclude)
      invariant forall n :: n in q ==> n in seen
      invariant forall n, m :: n in seen && n !in q && Adjacent(adj, n, m) && m != exclude ==> m in seen
      decreases Universe(adj, start) - seen, |q|
    {
      seen, q := Visit(adj, start, exclude, seen, q);
    }
    forall t | ReachesAvoiding(adj, start, t, exclude)
      ensures t in seen
    {
      var p :| PathAvoiding(adj, p, exclude) && p[0] == start && p[|p| - 1] == t;
      ClosedContainsPaths(adj, seen, p, exclude, |p| - 1);
    }
  }

  /** Take the head of the queue and enqueue its unseen neighbours. */
  method Visit(adj: Adjacency, start: Id, exclude: Id, seen0: set<Id>, q0: seq<Id>) returns (seen: set<Id>, q: seq<Id>)
    requires |q0| > 0 && start in seen0 && seen0 <= Universe(adj, start)
    requires forall t :: t in seen0 ==> ReachesAvoiding(adj, start, t, exclude)
    requires forall n :: n in q0 ==> n in seen0
    requires forall n, m :: n in seen0 && n !in q0 && Adjacent(adj, n, m) && m != exclude ==> m in seen0
    ensures seen0 <= seen <= Universe(adj, start) && (seen == seen0 ==> q == q0[1..])
    ensures forall t :: t in seen ==> ReachesAvoiding(adj, start, t, exclude)
    ensures forall n :: n in q ==> n in seen
    ensures forall n, m :: n in seen && n !in q && Adjacent(adj, n, m) && m != exclude ==> m in seen
  {
    var n := q0[0];
    seen, q := seen0, q0[1..];
    var ms := Neighbours(adj, n);
    var i := 0;
    while i < |ms|
      invariant 0 <= i <= |ms|
      invariant seen0 <= seen <= Universe(adj, start) && (seen == seen0 ==> q == q0[1..])
      invariant forall t :: t in seen ==> ReachesAvoiding(adj, start, t, exclude)
      invariant forall t :: t in q ==> t in seen
      invariant forall t :: t in seen - seen0 ==> t in q
      invariant forall t :: t in q0[1..] ==> t in q
      invariant forall j :: 0 <= j < i && ms[j] != exclude ==> ms[j] in seen
    {
      var m := ms[i];
      if m != exclude && m !in seen {
        assert Adjacent(adj, n, m);
        ExtendPath(adj, start, n, m, exclude);
        seen := seen + {m};
        q := q + [m];
      }
      i := i + 1;
    }
    forall a, b | a in seen && a !in q && Adjacent(adj, a, b) && b != exclude
      ensures b in seen
    {
      if a == n {
        var j :| 0 <= j < |ms| && ms[j] == b;
      } else {
        assert a !in q0;
      }
    }
  }

  // --------------------------------------------------------- connectivity floor

  datatype FloorLink = FloorLink(margin: real, snr: real, soft: bool, peer: Id, uplink: bool)

  /** The usable outbound links of a node; an uplink's peer keeps the gateway without it. */
  function FloorLinks(links: seq<Link>, node: Id, sf: int, now: int, maxAge: int, reach: set<Id>): seq<FloorLink>
  {
    if |links| == 0 then []
    else
      (var l, rest := links[|links| - 1], FloorLinks(links[..|links| - 1], node, sf, now, maxAge, reach);
       if Outbound(l, node, now, maxAge)
       then rest + [FloorLink(Margin(l, sf), LinkSnr(l), l.rssi == 0, l.peer, l.peer in reach)]
       else rest)
  }

  /** How many uplinks have a margin above m. */
  function Stronger(s: seq<FloorLink>, m: real): nat
  {
    if |s| == 0 then 0
    else Stronger(s[..|s| - 1], m) + if s[|s| - 1].uplink && s[|s| - 1].margin > m then 1 else 0
  }

  function AtLeastOne(n: int): int { if n < 1 then 1 else n }

  /** A link the network needs: its peer would be cut off, or fewer than `redundancy`
      uplinks are stronger. */
  ghost predicate Needed(s: seq<FloorLink>, l: FloorLink, redundancy: int)
  {
    !l.uplink || Stronger(s, l.margin) < redundancy
  }

  /** l is the weakest link that is needed. */
  ghost predicate Governs(s: seq<FloorLink>, redundancy: int, l: FloorLink)
  {
    && l in s && Needed(s, l, redundancy)
    && forall k :: k in s && Needed(s, k, redundancy) ==> l.margin <= k.margin
  }

  ghost predicate StrongestFirst(s: seq<FloorLink>)
  {
    forall i, j :: 0 <= i < j < |s| ==> s[i].margin >= s[j].margin
  }

  /** Counting does not depend on the order of the links. */
  lemma {:induction false} StrongerPermuted(s: seq<FloorLink>, t: seq<FloorLink>, m: real)
    requires multiset(s) == multiset(t)
    ensures Stronger(s, m) == Stronger(t, m)
  {
    if |s| == 0 {
      assert |multiset(t)| == 0;
    } else {
      var n := |s| - 1;
      assert s == s[..n] + [s[n]];
      assert s[n] in multiset(t);
      var k :| 0 <= k < |t| && t[k] == s[n];
      var t' := t[..k] + t[k + 1..];
      WithoutOne(t, k);
      CancelOne(multiset(s[..n]), multiset(t'), s[n]);
      StrongerPermuted(s[..n], t', m);
      StrongerRemove(t, k, m);
    }
  }

  lemma CancelOne(a: multiset<FloorLink>, b: multiset<FloorLink>, x: FloorLink)
    requires a + multiset{x} == b + multiset{x}
    ensures a == b
  {
    assert a == (a + multiset{x}) - multiset{x};
    assert b == (b + multiset{x}) - multiset{x};
  }

  lemma WithoutOne(t: seq<FloorLink>, k: nat)
    requires k < |t|
    ensures multiset(t) == multiset(t[..k] + t[k + 1..]) + multiset{t[k]}
  {
    assert t == t[..k] + ([t[k]] + t[k + 1..]);
  }

  lemma {:induction false} StrongerRemove(t: seq<FloorLink>, k: nat, m: real)
    requires k < |t|
    ensures Stronger(t, m) == Stronger(t[..k] + t[k + 1..], m) + if t[k].uplink && t[k].margin > m then 1 else 0
    decreases |t|
  {
    var n := |t| - 1;
    var t' := t[..k] + t[k + 1..];
    if k == n {
      assert t' == t[..n];
    } else {
      StrongerRemove(t[..n], k, m);
      assert t'[..n - 1] == t[..n][..k] + t[..n][k + 1..];
      assert t'[n - 1] == t[n];
    }
  }

  lemma {:induction false} StrongerPrefix(s: seq<FloorLink>, i: nat, m: real)
    requires i <= |s|
    ensures Stronger(s[..i], m) <= Stronger(s, m)
    ensures (forall j :: i <= j < |s| ==> s[j].margin <= m) ==> Stronger(s[..i], m) == Stronger(s, m)
    decreases |s| - i
  {
    if i < |s| {
      StrongerPrefix(s, i + 1, m);
      assert s[..i + 1][..i] == s[..i];
    } else {
      assert s[..i] == s;
    }
  }

  /** Margins of k kept uplinks: if fewer than k are above m, one is at most m. */
  function Above(ks: seq<real>, m: real): nat
  {
    if |ks| == 0 then 0 else Above(ks[..|ks| - 1], m) + if ks[|ks| - 1] > m then 1 else 0
  }

  lemma {:induction false} SomeNotAbove(ks: seq<real>, m: real) returns (j: nat)
    requires Above(ks, m) < |ks|
    ensures j < |ks| && ks[j] <= m
  {
    var n := |ks| - 1;
    if ks[n] <= m { j := n; } else { j := SomeNotAbove(ks[..n], m); }
  }

  ghost predicate Counts(s: seq<FloorLink>, rank: nat, ks: seq<real>)
  {
    forall m: real :: CountsAt(s, rank, ks, m)
  }

  ghost predicate CountsAt(s: seq<FloorLink>, rank: nat, ks: seq<real>, m: real)
  {
    Above(ks, m) <= Stronger(s, m) <= rank
  }

  /** What the scan over the sorted links has kept: the margins of the kept uplinks are
      `ks`, and s[g] governs so far. */
  ghost predicate Scanned(s: seq<FloorLink>, redundancy: int, i: nat, rank: nat, ks: seq<real>, g: nat)
    requires i <= |s|
  {
    && rank <= i && |ks| == (if rank < redundancy then rank else redundancy)
    && Counts(s[..i], rank, ks)
    && (i > 0 ==>
          && g < i && Needed(s, s[g], redundancy)
          && (forall j :: 0 <= j < |ks| ==> s[g].margin <= ks[j])
          && (forall j :: 0 <= j < i && Needed(s, s[j], redundancy) ==> s[g].margin <= s[j].margin))
  }

  /** One more link changes the counts by at most one, and a kept uplink is counted. */
  lemma CountStep(s: seq<FloorLink>, i: nat, ks: seq<real>, m: real)
    requires i < |s|
    ensures Stronger(s[..i + 1], m) == Stronger(s[..i], m) + if s[i].uplink && s[i].margin > m then 1 else 0
    ensures Above(ks + [s[i].margin], m) == Above(ks, m) + if s[i].margin > m then 1 else 0
  {
    assert s[..i + 1][..i] == s[..i];
    assert (ks + [s[i].margin])[..|ks|] == ks;
  }

  /** A kept link is needed, and an uplink that fades is either not needed or no weaker
      than some kept uplink. */
  lemma KeepIsNeeded(s: seq<FloorLink>, redundancy: int, i: nat, rank: nat, ks: seq<real>, g: nat)
    requires i < |s| && redundancy >= 1 && StrongestFirst(s)
    requires Scanned(s, redundancy, i, rank, ks, g)
    ensures !s[i].uplink || rank < redundancy ==> Needed(s, s[i], redundancy)
    ensures s[i].uplink && rank >= redundancy && Needed(s, s[i], redundancy) ==> i > 0 && s[g].margin <= s[i].margin
  {
    var l := s[i];
    StrongerPrefix(s, i, l.margin);
    assert CountsAt(s[..i], rank, ks, l.margin);
    if l.uplink && rank >= redundancy && Needed(s, l, redundancy) {
      var j := SomeNotAbove(ks, l.margin);
      assert s[g].margin <= ks[j];
    }
  }

  /** The counts of a scan advance with each link. */
  lemma CountsStep(s: seq<FloorLink>, i: nat, rank: nat, ks: seq<real>)
    requires i < |s| && Counts(s[..i], rank, ks)
    ensures !s[i].uplink ==> Counts(s[..i + 1], rank, ks)
    ensures s[i].uplink ==> Counts(s[..i + 1], rank + 1, ks) && Counts(s[..i + 1], rank + 1, ks + [s[i].margin])
  {
    var t, rank' := s[..i + 1], if s[i].uplink then rank + 1 else rank;
    var ks' := if s[i].uplink then ks + [s[i].margin] else ks;
    forall m: real
      ensures CountsAt(t, rank', ks, m)
    {
      CountStep(s, i, ks, m);
      assert CountsAt(s[..i], rank, ks, m);
    }
    forall m: real
      ensures CountsAt(t, rank', ks', m)
    {
      CountStep(s, i, ks, m);
      assert CountsAt(s[..i], rank, ks, m);
    }
  }

  /** Advance the scan by one link. */
  lemma ScanStep(s: seq<FloorLink>, redundancy: int, i: nat, rank: nat, ks: seq<real>, g: nat)
    requires i < |s| && redundancy >= 1 && StrongestFirst(s)
    requires Scanned(s, redundancy, i, rank, ks, g)
    ensures var keep := !s[i].uplink || rank < redundancy;
      Scanned(s, redundancy, i + 1, if s[i].uplink then rank + 1 else rank,
              if s[i].uplink && keep then ks + [s[i].margin] else ks,
              if keep && (i == 0 || s[i].margin < s[g].margin) then i else g)
  {
    KeepIsNeeded(s, redundancy, i, rank, ks, g);
    CountsStep(s, i, rank, ks);
    var keep := !s[i].uplink || rank < redundancy;
    var ks' := if s[i].uplink && keep then ks + [s[i].margin] else ks;
    var g' := if keep && (i == 0 || s[i].margin < s[g].margin) then i else g;
    assert forall j :: 0 <= j < |ks'| ==> s[g'].margin <= ks'[j];
  }

  /** Keep every link whose peer depends on the node and the best `redundancy` uplinks;
      the weakest kept link governs.  At least one link is always kept. */
  method KeepLinks(s: seq<FloorLink>, redundancy0: int) returns (gov: FloorLink)
    requires |s| > 0 && StrongestFirst(s)
    ensures Governs(s, AtLeastOne(redundancy0), gov)
  {
    var redundancy := AtLeastOne(redundancy0);
    var g, rank := 0, 0;
    ghost var ks: seq<real> := [];
    var i := 0;
    while i < |s|
      invariant 0 <= i <= |s| && g < |s|
      invariant Scanned(s, redundancy, i, rank, ks, g)
    {
      ScanStep(s, redundancy, i, rank, ks, g);
      var keep := true;
      if s[i].uplink {
        keep := rank < redundancy;
        rank := rank + 1;
        if keep { ks := ks + [s[i].margin]; }
      }
      if keep && (i == 0 || s[i].margin < s[g].margin) { g := i; }
      i := i + 1;
    }
    gov := s[g];
  }

  lemma InsertedMembers(t: seq<FloorLink>, k: nat, l: FloorLink)
    requires k <= |t|
    ensures multiset(t[..k] + [l] + t[k..]) == multiset(t) + multiset{l}
  {
    assert t == t[..k] + t[k..];
    assert multiset(t[..k] + [l] + t[k..]) == multiset(t[..k]) + multiset{l} + multiset(t[k..]);
  }

  method Insert(t: seq<FloorLink>, l: FloorLink) returns (r: seq<FloorLink>)
    requires StrongestFirst(t)
    ensures multiset(r) == multiset(t) + multiset{l} && |r| == |t| + 1 && StrongestFirst(r)
  {
    var k := 0;
    while k < |t| && t[k].margin >= l.margin
      invariant 0 <= k <= |t|
      invariant forall j :: 0 <= j < k ==> t[j].margin >= l.margin
    {
      k := k + 1;
    }
    InsertedMembers(t, k, l);
    r := t[..k] + [l] + t[k..];
  }

  /** Strongest first, in place of the library sort. */
  method Sort(s: seq<FloorLink>) returns (t: seq<FloorLink>)
    ensures multiset(t) == multiset(s) && |t| == |s| && StrongestFirst(t)
  {
    t := [];
    var i := 0;
    while i < |s|
      invariant 0 <= i <= |s| && |t| == i
      invariant multiset(t) == multiset(s[..i]) && StrongestFirst(t)
    {
      assert s[..i + 1] == s[..i] + [s[i]];
      t := Insert(t, s[i]);
      i := i + 1;
    }
    assert s[..i] == s;
  }

  lemma GovernsPermuted(s: seq<FloorLink>, t: seq<FloorLink>, redundancy: int, l: FloorLink)
    requires multiset(s) == multiset(t) && Governs(s, redundancy, l)
    ensures Governs(t, redundancy, l)
  {
    forall k: FloorLink
      ensures k in s <==> k in t
      ensures Needed(s, k, redundancy) == Needed(t, k, redundancy)
    {
      assert k in s <==> k in multiset(s);
      assert k in t <==> k in multiset(t);
      StrongerPermuted(s, t, k.margin);
    }
  }

  /** The peers that keep the gateway when `node` falls silent. */
  ghost predicate KeepGateway(snap: Snapshot, node: Id, adj: Adjacency, reach: set<Id>)
  {
    forall t :: t in reach <==> snap.gateway != NO_ID && ReachesAvoiding(adj, snap.gateway, t, node)
  }

  function ViewOf(l: FloorLink): Observation { Observation(true, l.margin, l.snr, l.soft, l.peer) }

  /** The view of the link that governs, if there is any link. */
  ghost predicate Floor(snap: Snapshot, node: Id, sf: int, now: int, maxAge: int, redundancy: int, reach: set<Id>,
                        obs: Observation)
  {
    var links := FloorLinks(snap.links, node, sf, now, maxAge, reach);
    && (obs.hasObs <==> IsHeard(snap.links, node, now, maxAge)) && (!obs.hasObs ==> obs == UNSEEN)
    && (obs.hasObs ==> exists l :: Governs(links, AtLeastOne(redundancy), l) && obs == ViewOf(l))
  }

  /** Observation under the connectivity floor.  `reach` is exactly the set of nodes that
      keep a path to the gateway when this node vanishes; the governing link is the
      weakest link to a peer outside it or among the best `redundancy` inside it. */
  method ObserveConnFloor(snap: Snapshot, node: Id, sf: int, now: int, maxAge: int, redundancy: int, adj: Adjacency)
    returns (obs: Observation, ghost reach: set<Id>)
    ensures KeepGateway(snap, node, adj, reach) && Floor(snap, node, sf, now, maxAge, redundancy, reach, obs)
    ensures ShowsWeakestKept(snap.links, node, sf, now, maxAge, redundancy, reach, obs)
  {
    var seen := ReachExcluding(adj, snap.gateway, node);
    reach := seen;
    var links := Collect(snap.links, node, sf, now, maxAge, seen);
    obs := UNSEEN;
    if |links| > 0 {
      var sorted := Sort(links);
      var gov := KeepLinks(sorted, redundancy);
      GovernsPermuted(sorted, links, AtLeastOne(redundancy), gov);
      obs := ViewOf(gov);
    }
    FloorMeaning(snap, node, sf, now, maxAge, redundancy, reach, obs);
  }

  method Collect(links: seq<Link>, node: Id, sf: int, now: int, maxAge: int, reach: set<Id>)
    returns (out: seq<FloorLink>)
    ensures out == FloorLinks(links, node, sf, now, maxAge, reach)
    ensures |out| > 0 <==> IsHeard(links, node, now, maxAge)
  {
    out := [];
    var limit := SnrLimit(sf);
    var i := 0;
    while i < |links|
      invariant 0 <= i <= |links|
      invariant out == FloorLinks(links[..i], node, sf, now, maxAge, reach)
      invariant |out| > 0 <==> exists j :: 0 <= j < i && Outbound(links[j], node, now, maxAge)
    {
      assert links[..i + 1][..i] == links[..i];
      var l := links[i];
      if l.from == node && now - l.at < maxAge && (l.rssi != 0 || l.q > 0.0) {
        var snr := if l.rssi != 0 then l.snr as real else QToSnr(l.q);
        out := out + [FloorLink(snr - limit, snr, l.rssi == 0, l.peer, l.peer in reach)];
      }
      i := i + 1;
    }
    assert links[..i] == links;
  }

  /** Every usable outbound link appears, with its margin. */
  lemma {:induction false} FloorLinksMembers(links: seq<Link>, node: Id, sf: int, now: int, maxAge: int, reach: set<Id>,
                                             k: FloorLink)
    ensures k in FloorLinks(links, node, sf, now, maxAge, reach) <==>
      exists i :: 0 <= i < |links| && Outbound(links[i], node, now, maxAge)
        && k == FloorLink(Margin(links[i], sf), LinkSnr(links[i]), links[i].rssi == 0, links[i].peer,
                          links[i].peer in reach)
  {
    if |links| > 0 {
      var n := |links| - 1;
      FloorLinksMembers(links[..n], node, sf, now, maxAge, reach, k);
      assert forall i :: 0 <= i < n ==> links[..n][i] == links[i];
    }
  }

  /** The least margin among the floor's links is the classic one. */
  lemma LeastIsClassic(links: seq<Link>, node: Id, sf: int, now: int, maxAge: int, reach: set<Id>, classic: Observation)
    requires Classic(links, node, sf, now, maxAge, classic) && classic.hasObs
    ensures forall k :: k in FloorLinks(links, node, sf, now, maxAge, reach) ==> classic.margin <= k.margin
    ensures exists k :: k in FloorLinks(links, node, sf, now, maxAge, reach) && k.margin == classic.margin
  {
    var s := FloorLinks(links, node, sf, now, maxAge, reach);
    forall k | k in s
      ensures classic.margin <= k.margin
    {
      FloorLinksMembers(links, node, sf, now, maxAge, reach, k);
    }
    var i :| 0 <= i < |links| && Outbound(links[i], node, now, maxAge) && classic == View(links[i], sf);
    var k := FloorLink(Margin(links[i], sf), LinkSnr(links[i]), links[i].rssi == 0, links[i].peer,
                       links[i].peer in reach);
    FloorLinksMembers(links, node, sf, now, maxAge, reach, k);
    assert k in s;
  }

  /** The two observations compared.  The floor never sees a lower margin than the
      classic rule, so it never asks for more power; it sees the same one exactly when
      some weakest link is needed, which without a gateway every link is. */
  lemma FloorAgainstClassic(snap: Snapshot, node: Id, sf: int, now: int, maxAge: int, redundancy: int, adj: Adjacency,
                            reach: set<Id>, classic: Observation, floor: Observation)
    requires Classic(snap.links, node, sf, now, maxAge, classic)
    requires KeepGateway(snap, node, adj, reach) && Floor(snap, node, sf, now, maxAge, redundancy, reach, floor)
    ensures classic.hasObs == floor.hasObs && classic.margin <= floor.margin
    ensures classic.hasObs ==>
              (classic.margin == floor.margin <==>
               exists k :: k in FloorLinks(snap.links, node, sf, now, maxAge, reach) && k.margin == classic.margin
                           && Needed(FloorLinks(snap.links, node, sf, now, maxAge, reach), k, AtLeastOne(redundancy)))
    ensures snap.gateway == NO_ID ==> classic.margin == floor.margin
  {
    if classic.hasObs {
      var s := FloorLinks(snap.links, node, sf, now, maxAge, reach);
      LeastIsClassic(snap.links, node, sf, now, maxAge, reach, classic);
      var l :| Governs(s, AtLeastOne(redundancy), l) && floor == ViewOf(l);
      if snap.gateway == NO_ID {
        NoUplinks(snap.links, node, sf, now, maxAge, reach);
        var k :| k in s && k.margin == classic.margin;
        assert Needed(s, k, AtLeastOne(redundancy));
      }
    }
  }

  lemma NoUplinks(links: seq<Link>, node: Id, sf: int, now: int, maxAge: int, reach: set<Id>)
    requires reach == {}
    ensures forall k :: k in FloorLinks(links, node, sf, now, maxAge, reach) ==> !k.uplink
  {
    forall k | k in FloorLinks(links, node, sf, now, maxAge, reach)
      ensures !k.uplink
    {
      FloorLinksMembers(links, node, sf, now, maxAge, reach, k);
    }
  }

  // ------------------------------------------------- in terms of the links

  /** node is heard over l: a recent link of its own with a quality or a measurement. */
  ghost predicate Hears(l: Link, node: Id, now: int, maxAge: int)
  {
    l.from == node && now - l.at < maxAge && (l.rssi != 0 || l.q > 0.0)
  }

  /** The SNR measured, else the one the quality stands for: -17 dB for none, +8 dB for 1. */
  ghost function Snr(l: Link): real
  {
    if l.rssi != 0 then l.snr as real else 25.0 * l.q - 17.0
  }

  /** The margin over the demodulation floor, which is -2.5 dB at spreading factor 5 and
      2.5 dB lower with each further one; unknown factors count as 9. */
  ghost function Db(l: Link, sf: int): real
  {
    Snr(l) + 2.5 * ((if 5 <= sf <= 12 then sf else 9) - 4) as real
  }

  lemma MarginExact(l: Link, sf: int)
    ensures LinkSnr(l) == Snr(l) && Margin(l, sf) == Db(l, sf)
    ensures SnrLimit(sf) == -2.5 * ((if 5 <= sf <= 12 then sf else 9) - 4) as real
  {
  }

  /** The estimate inverts the firmware's quality of a frame, wherever that does not
      saturate: an SNR from -16.5 to +8 dB comes back. */
  lemma QualityInverted(snrDb: real, rssiDbm: real)
    requires rssiDbm >= -130.0 && -16.5 <= snrDb <= 8.0
    ensures QToSnr(LinkMetric.QualityFromRf(snrDb, rssiDbm)) == snrDb
  {
    LinkMetric.QualityExact(snrDb, rssiDbm);
  }

  /** The observation shows link l. */
  ghost predicate Shows(l: Link, sf: int, obs: Observation)
  {
    obs == Observation(true, Db(l, sf), Snr(l), l.rssi == 0, l.peer)
  }

  ghost predicate Silent(links: seq<Link>, node: Id, now: int, maxAge: int)
  {
    forall i :: 0 <= i < |links| ==> !Hears(links[i], node, now, maxAge)
  }

  /** The classic view: the link of least margin the node is heard over. */
  ghost predicate ShowsWeakest(links: seq<Link>, node: Id, sf: int, now: int, maxAge: int, obs: Observation)
  {
    if Silent(links, node, now, maxAge) then obs == Observation(false, 0.0, 0.0, false, NO_ID)
    else exists i :: 0 <= i < |links| && Hears(links[i], node, now, maxAge) && Shows(links[i], sf, obs)
           && forall k :: 0 <= k < |links| && Hears(links[k], node, now, maxAge) ==>
                Db(links[i], sf) <= Db(links[k], sf)
  }

  lemma HeardMeaning(links: seq<Link>, node: Id, now: int, maxAge: int)
    ensures IsHeard(links, node, now, maxAge) <==> !Silent(links, node, now, maxAge)
  {
    forall i | 0 <= i < |links|
      ensures Outbound(links[i], node, now, maxAge) <==> Hears(links[i], node, now, maxAge)
    {
    }
  }

  lemma ClassicMeaning(links: seq<Link>, node: Id, sf: int, now: int, maxAge: int, obs: Observation)
    requires Classic(links, node, sf, now, maxAge, obs)
    ensures ShowsWeakest(links, node, sf, now, maxAge, obs)
  {
    forall i | 0 <= i < |links|
      ensures Outbound(links[i], node, now, maxAge) <==> Hears(links[i], node, now, maxAge)
      ensures Margin(links[i], sf) == Db(links[i], sf) && LinkSnr(links[i]) == Snr(links[i])
    {
      MarginExact(links[i], sf);
    }
  }

  /** The uplinks of the node with a margin above m, by their places in the snapshot. */
  ghost function StrongerUplinks(links: seq<Link>, node: Id, sf: int, now: int, maxAge: int, reach: set<Id>, m: real)
    : set<int>
  {
    set j | 0 <= j < |links| && Hears(links[j], node, now, maxAge) && links[j].peer in reach && Db(links[j], sf) > m
  }

  /** A link the node has to keep: its peer has no path to the gateway without the node,
      or it is among the best `redundancy` uplinks, at least one. */
  ghost predicate Keeps(links: seq<Link>, node: Id, sf: int, now: int, maxAge: int, redundancy: int, reach: set<Id>,
                        l: Link)
  {
    || l.peer !in reach
    || |StrongerUplinks(links, node, sf, now, maxAge, reach, Db(l, sf))| < if redundancy < 1 then 1 else redundancy
  }

  /** The view under the floor: the link of least margin among those the node keeps. */
  ghost predicate ShowsWeakestKept(links: seq<Link>, node: Id, sf: int, now: int, maxAge: int, redundancy: int,
                                   reach: set<Id>, obs: Observation)
  {
    if Silent(links, node, now, maxAge) then obs == Observation(false, 0.0, 0.0, false, NO_ID)
    else exists i :: 0 <= i < |links| && Hears(links[i], node, now, maxAge) && Shows(links[i], sf, obs)
           && Keeps(links, node, sf, now, maxAge, redundancy, reach, links[i])
           && forall k :: 0 <= k < |links| && Hears(links[k], node, now, maxAge)
                          && Keeps(links, node, sf, now, maxAge, redundancy, reach, links[k]) ==>
                            Db(links[i], sf) <= Db(links[k], sf)
  }

  /** Counting by place agrees with counting in the list. */
  lemma {:induction false} StrongerCounts(links: seq<Link>, node: Id, sf: int, now: int, maxAge: int, reach: set<Id>,
                                          m: real)
    ensures Stronger(FloorLinks(links, node, sf, now, maxAge, reach), m) ==
            |StrongerUplinks(links, node, sf, now, maxAge, reach, m)|
  {
    if |links| > 0 {
      var n := |links| - 1;
      var l, init := links[n], links[..n];
      var rest := FloorLinks(init, node, sf, now, maxAge, reach);
      StrongerCounts(init, node, sf, now, maxAge, reach, m);
      MarginExact(l, sf);
      var before, after := StrongerUplinks(init, node, sf, now, maxAge, reach, m),
                           StrongerUplinks(links, node, sf, now, maxAge, reach, m);
      if Hears(l, node, now, maxAge) {
        var s := FloorLinks(links, node, sf, now, maxAge, reach);
        assert s[..|s| - 1] == rest;
      }
      if Hears(l, node, now, maxAge) && l.peer in reach && Db(l, sf) > m {
        assert after == before + {n};
      } else {
        assert after == before;
      }
    }
  }

  /** The floor link of a link. */
  ghost function AsFloorLink(l: Link, sf: int, reach: set<Id>): FloorLink
  {
    FloorLink(Margin(l, sf), LinkSnr(l), l.rssi == 0, l.peer, l.peer in reach)
  }

  lemma NeededIsKept(links: seq<Link>, node: Id, sf: int, now: int, maxAge: int, redundancy: int, reach: set<Id>,
                     l: Link)
    ensures Needed(FloorLinks(links, node, sf, now, maxAge, reach), AsFloorLink(l, sf, reach), AtLeastOne(redundancy))
            <==> Keeps(links, node, sf, now, maxAge, redundancy, reach, l)
  {
    MarginExact(l, sf);
    StrongerCounts(links, node, sf, now, maxAge, reach, Db(l, sf));
  }

  lemma FloorMeaning(snap: Snapshot, node: Id, sf: int, now: int, maxAge: int, redundancy: int, reach: set<Id>,
                     obs: Observation)
    requires Floor(snap, node, sf, now, maxAge, redundancy, reach, obs)
    ensures ShowsWeakestKept(snap.links, node, sf, now, maxAge, redundancy, reach, obs)
  {
    var links := snap.links;
    assert forall i :: 0 <= i < |links| ==>
        (Outbound(links[i], node, now, maxAge) <==> Hears(links[i], node, now, maxAge));
    if obs.hasObs {
      var s := FloorLinks(links, node, sf, now, maxAge, reach);
      var gov :| Governs(s, AtLeastOne(redundancy), gov) && obs == ViewOf(gov);
      FloorLinksMembers(links, node, sf, now, maxAge, reach, gov);
      var i :| 0 <= i < |links| && Outbound(links[i], node, now, maxAge) && gov == AsFloorLink(links[i], sf, reach);
      MarginExact(links[i], sf);
      NeededIsKept(links, node, sf, now, maxAge, redundancy, reach, links[i]);
      forall k | 0 <= k < |links| && Hears(links[k], node, now, maxAge)
                 && Keeps(links, node, sf, now, maxAge, redundancy, reach, links[k])
        ensures Db(links[i], sf) <= Db(links[k], sf)
      {
        MarginExact(links[k], sf);
        NeededIsKept(links, node, sf, now, maxAge, redundancy, reach, links[k]);
        FloorLinksMembers(links, node, sf, now, maxAge, reach, AsFloorLink(links[k], sf, reach));
      }
    }
  }
}
