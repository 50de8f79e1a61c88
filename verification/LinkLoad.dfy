/** Routed load of every link: all-pairs quality-weighted shortest paths by Dijkstra
    (linkLoad in controller/internal/policy/engine.go). */
module LinkLoad {
  import opened Topo
  import opened Sums

  datatype Edge = Edge(from: Id, to: Id, cost: real)

  // ------------------------------------------------------------- the graph

  /** Quality a usable link is routed with: assumed when only measured, never below 0.05. */
  function RoutedQ(l: Link): (q: real)
    ensures q >= 0.05
  {
    var q := if l.q <= 0.0 then 0.5 else l.q;
    if q < 0.05 then 0.05 else q
  }

  function EdgeOf(l: Link): (e: Edge)
    ensures e.cost > 0.0
  {
    Edge(l.from, l.peer, 1.0 / RoutedQ(l))
  }

  /** The directed edges of the usable links. */
  function Edges(links: seq<Link>, now: int, maxAge: int): (es: set<Edge>)
    ensures forall e :: e in es ==> e.cost > 0.0
  {
    set l | l in links && Usable(l, now, maxAge) :: EdgeOf(l)
  }

  /** The nodes some edge leaves or enters, and no others. */
  function Ends(es: set<Edge>): (ids: set<Id>)
    ensures forall x :: x in ids <==> exists e :: e in es && (x == e.from || x == e.to)
  {
    (set e | e in es :: e.from) + (set e | e in es :: e.to)
  }

  /** The cost a link is routed at: the inverse of its quality, at most 20, and 2 for a
      link that was measured without a quality. */
  ghost predicate Priced(l: Link, cost: real)
  {
    if l.q <= 0.0 then cost == 2.0 else if l.q < 0.05 then cost == 20.0 else cost * l.q == 1.0
  }

  /** e is what a recent link with a quality or a measurement contributes. */
  ghost predicate Carries(l: Link, now: int, maxAge: int, e: Edge)
  {
    && now - l.at < maxAge && (l.q > 0.0 || l.rssi != 0)
    && e.from == l.from && e.to == l.peer && Priced(l, e.cost)
  }

  /** Every recent link with a quality or a measurement is an edge at its price, and
      there are no other edges. */
  ghost predicate IsGraph(links: seq<Link>, now: int, maxAge: int, es: set<Edge>)
  {
    && (forall l :: l in links && now - l.at < maxAge && (l.q > 0.0 || l.rssi != 0) ==>
          exists e :: e in es && Carries(l, now, maxAge, e))
    && (forall e :: e in es ==> exists l :: l in links && Carries(l, now, maxAge, e))
  }

  lemma GraphMeaning(links: seq<Link>, now: int, maxAge: int)
    ensures IsGraph(links, now, maxAge, Edges(links, now, maxAge))
  {
    var es := Edges(links, now, maxAge);
    forall l | l in links && now - l.at < maxAge && (l.q > 0.0 || l.rssi != 0)
      ensures exists e :: e in es && Carries(l, now, maxAge, e)
    {
      EdgePriced(l);
      assert EdgeOf(l) in es && Carries(l, now, maxAge, EdgeOf(l));
    }
    forall e | e in es
      ensures exists l :: l in links && Carries(l, now, maxAge, e)
    {
      var l :| l in links && Usable(l, now, maxAge) && EdgeOf(l) == e;
      EdgePriced(l);
      assert Carries(l, now, maxAge, e);
    }
  }

  lemma EdgePriced(l: Link)
    ensures Priced(l, EdgeOf(l).cost)
  {
    if l.q > 0.05 { assert 1.0 / l.q * l.q == 1.0; }
  }

  /** The price fixes the cost, and the better of two links above the clamp costs
      strictly less; so there is one graph only. */
  lemma BetterCostsLess(l: Link, m: Link, c: real, d: real)
    requires Priced(l, c) && Priced(m, d)
    ensures l.q == m.q ==> c == d
    ensures 0.05 <= l.q < m.q ==> d < c
    ensures 0.0 < c && (0.0 < l.q <= 1.0 ==> 1.0 <= c <= 20.0)
  {
    if l.q >= 0.05 { Inverse(l.q, c); }
    if 0.05 <= l.q < m.q { Order(l.q, m.q, c, d); }
    if l.q == m.q && l.q >= 0.05 { Once(l.q, c, d); }
  }

  lemma Inverse(q: real, c: real)
    requires q >= 0.05 && c * q == 1.0
    ensures 0.0 < c <= 20.0 && (q <= 1.0 ==> 1.0 <= c)
  {
    assert c > 0.0 by { if c <= 0.0 { Scaled(q, c, 0.0); } }
    Scaled(c, 0.05, q);
    if q <= 1.0 { Scaled(c, q, 1.0); }
  }

  lemma Order(p: real, q: real, c: real, d: real)
    requires 0.05 <= p < q && c * p == 1.0 && d * q == 1.0
    ensures d < c
  {
    Inverse(p, c);
    if c <= d {
      Scaled(c, p, q);
      Scaled(q, c, d);
      assert false;
    }
  }

  lemma Once(q: real, c: real, d: real)
    requires q >= 0.05 && c * q == 1.0 && d * q == 1.0
    ensures c == d
  {
    if c < d { Scaled(q, c, d); } else { Scaled(q, d, c); }
  }

  lemma Scaled(k: real, a: real, b: real)
    requires k > 0.0 && a <= b
    ensures a * k <= b * k && k * a <= k * b
    ensures a < b ==> a * k < b * k && k * a < k * b
  {
  }

  lemma OnePrice(l: Link, now: int, maxAge: int, e: Edge, f: Edge)
    requires Carries(l, now, maxAge, e) && Carries(l, now, maxAge, f)
    ensures e == f
  {
    BetterCostsLess(l, l, e.cost, f.cost);
  }

  lemma EdgeInBoth(links: seq<Link>, now: int, maxAge: int, fs: set<Edge>, l: Link, e: Edge)
    requires IsGraph(links, now, maxAge, fs) && l in links && Carries(l, now, maxAge, e)
    ensures e in fs
  {
    var f :| f in fs && Carries(l, now, maxAge, f);
    OnePrice(l, now, maxAge, e, f);
  }

  /** Two graphs of the same links are the same graph. */
  lemma OneGraph(links: seq<Link>, now: int, maxAge: int, es: set<Edge>, fs: set<Edge>)
    requires IsGraph(links, now, maxAge, es) && IsGraph(links, now, maxAge, fs)
    ensures es == fs
  {
    GraphWithin(links, now, maxAge, es, fs);
    GraphWithin(links, now, maxAge, fs, es);
  }

  lemma GraphWithin(links: seq<Link>, now: int, maxAge: int, es: set<Edge>, fs: set<Edge>)
    requires IsGraph(links, now, maxAge, es) && IsGraph(links, now, maxAge, fs)
    ensures es <= fs
  {
    forall e | e in es
      ensures e in fs
    {
      var l :| l in links && Carries(l, now, maxAge, e);
      EdgeInBoth(links, now, maxAge, fs, l, e);
    }
  }

  /** w leads from s to t along edges of the graph. */
  ghost predicate IsWalk(es: set<Edge>, s: Id, t: Id, w: seq<Edge>)
    decreases |w|
  {
    if |w| == 0 then s == t
    else var e := w[|w| - 1]; e in es && e.to == t && IsWalk(es, s, e.from, w[..|w| - 1])
  }

  ghost function Cost(w: seq<Edge>): real
  {
    if |w| == 0 then 0.0 else Cost(w[..|w| - 1]) + w[|w| - 1].cost
  }

  // ----------------------------------------------------- shortest-path trees

  /** The outcome of one Dijkstra pass: distances (absent means infinite), the
      predecessor of every reached node but the source, and the depth in that tree. */
  datatype Tree = Tree(src: Id, dist: map<Id, real>, prev: map<Id, Id>, hops: map<Id, nat>)

  ghost predicate TreeLink(es: set<Edge>, t: Tree, v: Id, e: Edge)
  {
    e in es && e.to == v && e.from in t.dist && v in t.dist && t.dist[v] == t.dist[e.from] + e.cost
  }

  /** A reached node other than the source hangs off its predecessor by an edge. */
  ghost predicate Hangs(es: set<Edge>, t: Tree, v: Id)
  {
    v in t.prev ==>
      && v in t.dist && t.prev[v] in t.dist && v in t.hops && t.prev[v] in t.hops
      && t.hops[v] == t.hops[t.prev[v]] + 1
      && exists e :: TreeLink(es, t, v, e) && e.from == t.prev[v]
  }

  ghost predicate Rooted(es: set<Edge>, t: Tree)
  {
    && t.src in t.dist && t.dist[t.src] == 0.0
    && t.prev.Keys == t.dist.Keys - {t.src} && t.hops.Keys == t.dist.Keys && t.hops[t.src] == 0
    && (forall v :: Hangs(es, t, v))
  }

  ghost predicate Relaxed(es: set<Edge>, t: Tree, done: set<Id>)
  {
    forall e :: e in es && e.from in done && e.from in t.dist ==>
             e.to in t.dist && t.dist[e.to] <= t.dist[e.from] + e.cost
  }

  ghost predicate ShortestTree(es: set<Edge>, t: Tree)
  {
    Rooted(es, t) && Relaxed(es, t, t.dist.Keys)
  }

  /** The walk the predecessor chain of v spells, from the source. */
  ghost function ChainWalk(es: set<Edge>, t: Tree, v: Id): (w: seq<Edge>)
    requires Rooted(es, t) && v in t.dist
    decreases t.hops[v]
  {
    if v == t.src then []
    else
      assert v in t.prev && Hangs(es, t, v);
      var e :| TreeLink(es, t, v, e) && e.from == t.prev[v];
      ChainWalk(es, t, t.prev[v]) + [e]
  }

  /** The chain ends at the source and costs exactly the distance. */
  lemma {:induction false} ChainIsWalk(es: set<Edge>, t: Tree, v: Id)
    requires Rooted(es, t) && v in t.dist
    ensures IsWalk(es, t.src, v, ChainWalk(es, t, v))
    ensures Cost(ChainWalk(es, t, v)) == t.dist[v]
    ensures |ChainWalk(es, t, v)| == t.hops[v]
    decreases t.hops[v]
  {
    if v != t.src {
      assert Hangs(es, t, v);
      ChainIsWalk(es, t, t.prev[v]);
      var w := ChainWalk(es, t, v);
      assert w[..|w| - 1] == ChainWalk(es, t, t.prev[v]);
    }
  }

  /** No walk is cheaper than the distance, and only reached nodes have walks. */
  lemma {:induction false} NoCheaperWalk(es: set<Edge>, t: Tree, v: Id, w: seq<Edge>)
    requires ShortestTree(es, t) && IsWalk(es, t.src, v, w)
    ensures v in t.dist && t.dist[v] <= Cost(w)
    decreases |w|
  {
    if |w| > 0 {
      NoCheaperWalk(es, t, w[|w| - 1].from, w[..|w| - 1]);
    }
  }

  ghost predicate Reachable(es: set<Edge>, s: Id, t: Id)
  {
    exists w :: IsWalk(es, s, t, w)
  }

  /** w is a walk from s to t and none is cheaper. */
  ghost predicate CheapestWalk(es: set<Edge>, s: Id, t: Id, w: seq<Edge>)
  {
    IsWalk(es, s, t, w) && forall w' :: IsWalk(es, s, t, w') ==> Cost(w) <= Cost(w')
  }

  /** A finished tree is exact: it reaches what walks reach, at minimum cost, along
      its own predecessor chains. */
  lemma TreeIsShortest(es: set<Edge>, t: Tree, v: Id)
    requires ShortestTree(es, t)
    ensures v in t.dist <==> Reachable(es, t.src, v)
    ensures v in t.dist ==> CheapestWalk(es, t.src, v, ChainWalk(es, t, v)) && |ChainWalk(es, t, v)| == t.hops[v]
  {
    if v in t.dist {
      ChainIsWalk(es, t, v);
      forall w | IsWalk(es, t.src, v, w)
        ensures Cost(ChainWalk(es, t, v)) <= Cost(w)
      {
        NoCheaperWalk(es, t, v, w);
      }
    } else if Reachable(es, t.src, v) {
      var w :| IsWalk(es, t.src, v, w);
      NoCheaperWalk(es, t, v, w);
    }
  }

  // ---------------------------------------------------------------- dijkstra

  /** The unvisited node of least finite distance; NO_ID when there is none. */
  method Nearest(nodes: set<Id>, visited: set<Id>, dist: map<Id, real>) returns (u: Id)
    requires NO_ID !in nodes
    ensures u == NO_ID ==> forall v :: v in nodes && v !in visited ==> v !in dist
    ensures u != NO_ID ==> u in nodes && u !in visited && u in dist
    ensures u != NO_ID ==> forall v :: v in nodes && v !in visited && v in dist ==> dist[u] <= dist[v]
  {
    u := NO_ID;
    var rest := nodes;
    while rest != {}
      invariant rest <= nodes
      invariant u == NO_ID ==> forall v :: v in nodes - rest && v !in visited ==> v !in dist
      invariant u != NO_ID ==> u in nodes && u !in visited && u in dist
      invariant u != NO_ID ==> forall v :: v in nodes - rest && v !in visited && v in dist ==> dist[u] <= dist[v]
      decreases rest
    {
      var id :| id in rest;
      rest := rest - {id};
      if id !in visited && id in dist && (u == NO_ID || dist[id] < dist[u]) {
        u := id;
      }
    }
  }

  /** The tree under construction: every predecessor is among the visited nodes. */
  ghost predicate Growing(es: set<Edge>, nodes: set<Id>, t: Tree, visited: set<Id>)
  {
    && Rooted(es, t) && t.dist.Keys <= nodes && visited <= t.dist.Keys
    && (forall v :: v in t.prev ==> t.prev[v] in visited)
  }

  /** Visited distances are final: nothing unvisited is nearer. */
  ghost predicate Settled(t: Tree, visited: set<Id>, bound: real)
  {
    && (forall v :: v in visited && v in t.dist ==> t.dist[v] <= bound)
    && (forall v :: v in t.dist && v !in visited ==> bound <= t.dist[v])
  }

  /** The tree with v reached through u. */
  function Reach(t: Tree, u: Id, v: Id, d: real): Tree
    requires u in t.hops
  {
    t.(dist := t.dist[v := d], prev := t.prev[v := u], hops := t.hops[v := t.hops[u] + 1])
  }

  /** Reaching an unvisited node leaves everything built on visited nodes in place. */
  lemma ReachKeeps(es: set<Edge>, nodes: set<Id>, t: Tree, visited: set<Id>, u: Id, e: Edge)
    requires Growing(es, nodes, t, visited) && u in visited && t.src in visited
    requires e in es && e.from == u && e.to in nodes && e.to !in visited
    ensures Growing(es, nodes, Reach(t, u, e.to, t.dist[u] + e.cost), visited)
  {
    var t' := Reach(t, u, e.to, t.dist[u] + e.cost);
    assert t'.prev.Keys == t'.dist.Keys - {t.src};
    forall v
      ensures Hangs(es, t', v)
      ensures v in t'.prev ==> t'.prev[v] in visited
    {
      assert Hangs(es, t, v);
      if v == e.to {
        assert TreeLink(es, t', v, e);
      } else if v in t.prev {
        var f :| TreeLink(es, t, v, f) && f.from == t.prev[v];
        assert TreeLink(es, t', v, f);
      }
    }
  }

  /** Lowering an unvisited distance to at least the visited bound keeps every relaxed
      edge relaxed and every visited distance final. */
  lemma ReachStable(es: set<Edge>, t: Tree, visited: set<Id>, done: set<Id>, u: Id, v: Id, d: real, bound: real)
    requires Relaxed(es, t, done) && done <= visited && Settled(t, visited, bound)
    requires v !in visited && u in t.hops && (v !in t.dist || d < t.dist[v]) && bound <= d
    ensures Relaxed(es, Reach(t, u, v, d), done) && Settled(Reach(t, u, v, d), visited, bound)
  {
  }

  /** Adjacency as the source keeps it: the edges leaving each node. */
  function Leaving(es: set<Edge>, u: Id): set<Edge>
  {
    set e | e in es && e.from == u
  }

  /** Relax every edge leaving u, the node now being visited. */
  method RelaxFrom(es: set<Edge>, nodes: set<Id>, t0: Tree, visited: set<Id>, u: Id) returns (t: Tree)
    requires Ends(es) <= nodes && (forall e :: e in es ==> e.cost > 0.0)
    requires u in visited && t0.src in visited
    requires Growing(es, nodes, t0, visited) && Relaxed(es, t0, visited - {u})
    requires Settled(t0, visited, t0.dist[u])
    ensures t.src == t0.src && u in t.dist && t.dist[u] == t0.dist[u]
    ensures Growing(es, nodes, t, visited) && Relaxed(es, t, visited)
    ensures Settled(t, visited, t.dist[u])
  {
    t := t0;
    var rest := Leaving(es, u);
    while rest != {}
      invariant rest <= Leaving(es, u)
      invariant RelaxInv(es, nodes, t0, t, visited, u, Leaving(es, u) - rest)
      decreases rest
    {
      var e :| e in rest;
      t := RelaxEdge(es, nodes, t0, t, visited, u, Leaving(es, u) - rest, e);
      assert Leaving(es, u) - (rest - {e}) == Leaving(es, u) - rest + {e};
      rest := rest - {e};
    }
    LastRelaxed(es, t, visited, u);
  }

  /** While the edges leaving u are being relaxed; `done` are finished. */
  ghost predicate RelaxInv(es: set<Edge>, nodes: set<Id>, t0: Tree, t: Tree, visited: set<Id>, u: Id, done: set<Edge>)
  {
    && t.src == t0.src && u in t0.dist && u in t.dist && t.dist[u] == t0.dist[u]
    && Growing(es, nodes, t, visited) && Relaxed(es, t, visited - {u}) && Settled(t, visited, t0.dist[u])
    && Lowered(t, u, done)
  }

  method RelaxEdge(ghost es: set<Edge>, ghost nodes: set<Id>, ghost t0: Tree, t: Tree, ghost visited: set<Id>,
                   u: Id, ghost done: set<Edge>, e: Edge) returns (r: Tree)
    requires RelaxInv(es, nodes, t0, t, visited, u, done) && u in visited && t.src in visited
    requires e in es && e.from == u && e.to in nodes && e.cost > 0.0
    ensures RelaxInv(es, nodes, t0, r, visited, u, done + {e})
  {
    RelaxStep(es, nodes, t0, t, visited, u, done, e);
    var nd := t.dist[u] + e.cost;
    r := if e.to !in t.dist || nd < t.dist[e.to] then Reach(t, u, e.to, nd) else t;
  }

  lemma RelaxStep(es: set<Edge>, nodes: set<Id>, t0: Tree, t: Tree, visited: set<Id>, u: Id, done: set<Edge>, e: Edge)
    requires RelaxInv(es, nodes, t0, t, visited, u, done) && u in visited && t.src in visited
    requires e in es && e.from == u && e.to in nodes && e.cost > 0.0
    ensures var nd := t.dist[u] + e.cost;
            RelaxInv(es, nodes, t0, if e.to !in t.dist || nd < t.dist[e.to] then Reach(t, u, e.to, nd) else t,
                     visited, u, done + {e})
  {
    var nd := t.dist[u] + e.cost;
    if e.to !in t.dist || nd < t.dist[e.to] {
      ReachKeeps(es, nodes, t, visited, u, e);
      ReachStable(es, t, visited, visited - {u}, u, e.to, nd, t0.dist[u]);
      LoweredStays(t, u, done, e);
    }
  }

  /** The ends of these edges out of u are no farther than through u. */
  ghost predicate Lowered(t: Tree, u: Id, edges: set<Edge>)
    requires u in t.dist
  {
    forall e :: e in edges ==> e.to in t.dist && t.dist[e.to] <= t.dist[u] + e.cost
  }

  lemma LoweredStays(t: Tree, u: Id, edges: set<Edge>, e: Edge)
    requires u in t.dist && u in t.hops && e.to != u && Lowered(t, u, edges)
    requires e.to !in t.dist || t.dist[u] + e.cost < t.dist[e.to]
    ensures Lowered(Reach(t, u, e.to, t.dist[u] + e.cost), u, edges)
  {
  }

  lemma LastRelaxed(es: set<Edge>, t: Tree, visited: set<Id>, u: Id)
    requires u in t.dist && Relaxed(es, t, visited - {u}) && Lowered(t, u, Leaving(es, u))
    ensures Relaxed(es, t, visited)
  {
    forall e | e in es && e.from in visited && e.from in t.dist
      ensures e.to in t.dist && t.dist[e.to] <= t.dist[e.from] + e.cost
    {
      if e.from == u { assert e in Leaving(es, u); }
    }
  }

  /** Visiting the nearest unvisited node keeps the order of distances. */
  lemma NextVisit(es: set<Edge>, nodes: set<Id>, t: Tree, visited: set<Id>, u: Id, bound: real)
    requires Growing(es, nodes, t, visited) && Relaxed(es, t, visited) && Settled(t, visited, bound)
    requires u in t.dist && u !in visited
    requires forall v :: v in nodes && v !in visited && v in t.dist ==> t.dist[u] <= t.dist[v]
    ensures Growing(es, nodes, t, visited + {u}) && Relaxed(es, t, visited + {u} - {u})
    ensures Settled(t, visited + {u}, t.dist[u])
  {
  }

  /** Dijkstra from one source: the returned tree is a shortest-path tree. */
  method ShortestPaths(es: set<Edge>, nodes: set<Id>, src: Id) returns (t: Tree)
    requires src in nodes && NO_ID !in nodes && Ends(es) <= nodes
    requires forall e :: e in es ==> e.cost > 0.0
    ensures t.src == src && t.dist.Keys <= nodes && ShortestTree(es, t)
  {
    t := Tree(src, map[src := 0.0], map[], map[src := 0]);
    var visited: set<Id> := {};
    ghost var bound := 0.0;
    while true
      invariant t.src == src && visited <= nodes && (visited != {} ==> src in visited)
      invariant visited == {} ==> t == Tree(src, map[src := 0.0], map[], map[src := 0])
      invariant Growing(es, nodes, t, visited) && Relaxed(es, t, visited) && Settled(t, visited, bound)
      decreases nodes - visited
    {
      var u := Nearest(nodes, visited, t.dist);
      if u == NO_ID { break; }
      assert u in nodes - visited && u !in nodes - (visited + {u});
      NextVisit(es, nodes, t, visited, u, bound);
      visited := visited + {u};
      bound := t.dist[u];
      t := RelaxFrom(es, nodes, t, visited, u);
    }
    assert visited == t.dist.Keys;
  }

  // ------------------------------------------------------------ path counting

  type Key = (Id, Id)

  /** The path a tree routes v over uses this link. */
  ghost predicate Crosses(es: set<Edge>, t: Tree, v: Id, e: Key)
    requires Rooted(es, t) && v in t.dist
    decreases t.hops[v]
  {
    assert Hangs(es, t, v);
    v != t.src && (e == (t.prev[v], v) || Crosses(es, t, t.prev[v], e))
  }

  lemma {:induction false} CrossesMeaning(es: set<Edge>, t: Tree, v: Id, e: Key)
    requires Rooted(es, t) && v in t.dist
    ensures Crosses(es, t, v, e) <==> exists f :: f in ChainWalk(es, t, v) && e == (f.from, f.to)
    decreases t.hops[v]
  {
    if v != t.src {
      assert Hangs(es, t, v);
      var p := t.prev[v];
      CrossesMeaning(es, t, p, e);
      var w := ChainWalk(es, t, v);
      var last := w[|w| - 1];
      assert w == ChainWalk(es, t, p) + [last];
      assert last in w && last.from == p && last.to == v;
      assert forall f :: f in w <==> f in ChainWalk(es, t, p) || f == last;
    }
  }

  /** A path never comes back to a node: each link on it ends nearer the source. */
  lemma {:induction false} CrossesNearer(es: set<Edge>, t: Tree, v: Id, e: Key)
    requires Rooted(es, t) && v in t.dist && Crosses(es, t, v, e)
    ensures e.1 in t.hops && t.hops[e.1] <= t.hops[v]
    decreases t.hops[v]
  {
    assert Hangs(es, t, v);
    if e != (t.prev[v], v) { CrossesNearer(es, t, t.prev[v], e); }
  }

  ghost function One(b: bool): nat { if b then 1 else 0 }

  /** Walk the predecessor chain from dst to the source, counting every link once. */
  method WalkBack(ghost es: set<Edge>, t: Tree, dst: Id, load0: map<Key, nat>) returns (load: map<Key, nat>)
    requires Rooted(es, t) && dst in t.dist
    requires forall k :: k in load0 ==> load0[k] > 0
    ensures forall e: Key :: Get(load, e) == Get(load0, e) + One(Crosses(es, t, dst, e))
    ensures forall k :: k in load ==> load[k] > 0
    ensures Total(load) == Total(load0) + t.hops[dst]
  {
    load := load0;
    var cur := dst;
    while cur != t.src
      invariant cur in t.dist
      invariant forall e: Key ::
                  Get(load, e) + One(Crosses(es, t, cur, e)) == Get(load0, e) + One(Crosses(es, t, dst, e))
      invariant forall k :: k in load ==> load[k] > 0
      invariant Total(load) + t.hops[cur] == Total(load0) + t.hops[dst]
      decreases t.hops[cur]
    {
      assert cur in t.prev && Hangs(es, t, cur);
      var p := t.prev[cur];
      OnceMore(es, t, cur, load);
      load := load[(p, cur) := Get(load, (p, cur)) + 1];
      cur := p;
    }
  }

  /** Counting the last link of a path counts it for that path only. */
  lemma OnceMore(es: set<Edge>, t: Tree, v: Id, load: map<Key, nat>)
    requires Rooted(es, t) && v in t.prev && v in t.dist && t.prev[v] in t.dist && v != t.src
    ensures var k := (t.prev[v], v);
            var load' := load[k := Get(load, k) + 1];
            && Total(load') == Total(load) + 1
            && forall e: Key ::
                 Get(load', e) + One(Crosses(es, t, t.prev[v], e)) == Get(load, e) + One(Crosses(es, t, v, e))
  {
    assert Hangs(es, t, v);
    var p := t.prev[v];
    var k := (p, v);
    if Crosses(es, t, p, k) { CrossesNearer(es, t, p, k); }
    TotalBump(load, k);
  }

  // ------------------------------------------------------------ all pairs

  /** The trees of the sources treated so far. */
  ghost predicate Forest(es: set<Edge>, trees: map<Id, Tree>)
  {
    forall s :: s in trees ==> trees[s].src == s && ShortestTree(es, trees[s])
  }

  /** An ordered pair of distinct nodes joined by a route. */
  ghost predicate Routed(trees: map<Id, Tree>, p: Key)
  {
    p.0 in trees && p.1 in trees[p.0].dist && p.1 != p.0
  }

  ghost predicate PairCrosses(es: set<Edge>, trees: map<Id, Tree>, p: Key, e: Key)
    requires Forest(es, trees)
  {
    Routed(trees, p) && Crosses(es, trees[p.0], p.1, e)
  }

  ghost function CrossingPairs(es: set<Edge>, trees: map<Id, Tree>, pairs: set<Key>, e: Key): set<Key>
    requires Forest(es, trees)
  {
    set p | p in pairs && PairCrosses(es, trees, p, e)
  }

  ghost function PairHops(trees: map<Id, Tree>): Key -> nat
  {
    (p: Key) => if p.0 in trees && p.1 in trees[p.0].hops then trees[p.0].hops[p.1] else 0
  }

  ghost predicate LinkCounts(es: set<Edge>, trees: map<Id, Tree>, pairs: set<Key>, load: map<Key, nat>)
    requires Forest(es, trees)
  {
    forall e: Key :: Get(load, e) == |CrossingPairs(es, trees, pairs, e)|
  }

  /** The counters agree with the pairs treated so far, link by link and in total. */
  ghost predicate Counted(es: set<Edge>, trees: map<Id, Tree>, pairs: set<Key>, load: map<Key, nat>)
    requires Forest(es, trees)
  {
    && (forall p :: p in pairs ==> Routed(trees, p))
    && (forall k :: k in load ==> load[k] > 0)
    && LinkCounts(es, trees, pairs, load)
    && Total(load) == Sum(pairs, PairHops(trees))
  }

  lemma CountPair(es: set<Edge>, trees: map<Id, Tree>, pairs: set<Key>, load: map<Key, nat>, p: Key,
                  load': map<Key, nat>)
    requires Forest(es, trees) && Counted(es, trees, pairs, load) && p !in pairs && Routed(trees, p)
    requires forall e: Key :: Get(load', e) == Get(load, e) + One(Crosses(es, trees[p.0], p.1, e))
    requires forall k :: k in load' ==> load'[k] > 0
    requires Total(load') == Total(load) + trees[p.0].hops[p.1]
    ensures Counted(es, trees, pairs + {p}, load')
  {
    forall e: Key
      ensures Get(load', e) == |CrossingPairs(es, trees, pairs + {p}, e)|
    {
      AddPair(es, trees, pairs, p, e);
    }
    SumSplit(pairs + {p}, p, PairHops(trees));
    assert pairs + {p} - {p} == pairs;
  }

  lemma AddPair(es: set<Edge>, trees: map<Id, Tree>, pairs: set<Key>, p: Key, e: Key)
    requires Forest(es, trees) && p !in pairs && Routed(trees, p)
    ensures |CrossingPairs(es, trees, pairs + {p}, e)|
              == |CrossingPairs(es, trees, pairs, e)| + One(Crosses(es, trees[p.0], p.1, e))
  {
    var before, after := CrossingPairs(es, trees, pairs, e), CrossingPairs(es, trees, pairs + {p}, e);
    if PairCrosses(es, trees, p, e) {
      assert after == before + {p};
    } else {
      assert after == before;
    }
  }

  /** A new source does not change what was counted for the others. */
  lemma NewSource(es: set<Edge>, trees: map<Id, Tree>, pairs: set<Key>, load: map<Key, nat>, t: Tree)
    requires Forest(es, trees) && Counted(es, trees, pairs, load)
    requires t.src !in trees && ShortestTree(es, t)
    ensures Forest(es, trees[t.src := t]) && Counted(es, trees[t.src := t], pairs, load)
  {
    var trees' := trees[t.src := t];
    forall p | p in pairs
      ensures Routed(trees', p) && p.0 in trees && p.0 in trees' && trees[p.0] == trees'[p.0]
    {
      assert Routed(trees, p);
    }
    SameCounts(es, trees, trees', pairs, load);
    SumSame(pairs, PairHops(trees), PairHops(trees'));
  }

  lemma SameCounts(es: set<Edge>, trees: map<Id, Tree>, trees': map<Id, Tree>, pairs: set<Key>, load: map<Key, nat>)
    requires Forest(es, trees) && Forest(es, trees') && LinkCounts(es, trees, pairs, load)
    requires forall p :: p in pairs ==> p.0 in trees && p.0 in trees' && trees[p.0] == trees'[p.0]
    ensures LinkCounts(es, trees', pairs, load)
  {
    forall e: Key
      ensures Get(load, e) == |CrossingPairs(es, trees', pairs, e)|
    {
      SamePairs(es, trees, trees', pairs, e);
    }
  }

  lemma SamePairs(es: set<Edge>, trees: map<Id, Tree>, trees': map<Id, Tree>, pairs: set<Key>, e: Key)
    requires Forest(es, trees) && Forest(es, trees')
    requires forall p :: p in pairs ==> p.0 in trees && p.0 in trees' && trees[p.0] == trees'[p.0]
    ensures CrossingPairs(es, trees', pairs, e) == CrossingPairs(es, trees, pairs, e)
  {
  }

  method CountOne(ghost es: set<Edge>, t: Tree, dst: Id, ghost trees: map<Id, Tree>, ghost pairs0: set<Key>,
                  load0: map<Key, nat>)
    returns (load: map<Key, nat>, ghost pairs: set<Key>)
    requires Forest(es, trees) && t.src in trees && trees[t.src] == t && dst in t.dist && dst != t.src
    requires Counted(es, trees, pairs0, load0) && (t.src, dst) !in pairs0
    ensures Counted(es, trees, pairs, load) && pairs == pairs0 + {(t.src, dst)}
  {
    load := WalkBack(es, t, dst, load0);
    CountPair(es, trees, pairs0, load0, (t.src, dst), load);
    pairs := pairs0 + {(t.src, dst)};
  }

  /** Count the paths from one source to every node of the tree. */
  method CountSource(ghost es: set<Edge>, nodes: set<Id>, t: Tree, ghost trees: map<Id, Tree>,
                     ghost pairs0: set<Key>, load0: map<Key, nat>) returns (load: map<Key, nat>, ghost pairs: set<Key>)
    requires Forest(es, trees) && t.src in trees && trees[t.src] == t && t.dist.Keys <= nodes
    requires Counted(es, trees, pairs0, load0) && forall p :: p in pairs0 ==> p.0 != t.src
    ensures Counted(es, trees, pairs, load)
    ensures forall p :: p in pairs <==> p in pairs0 || (p.0 == t.src && Routed(trees, p))
  {
    load, pairs := load0, pairs0;
    var rest := nodes;
    while rest != {}
      invariant rest <= nodes
      invariant Counted(es, trees, pairs, load)
      invariant PairsOf(trees, pairs0, pairs, t.src, nodes - rest)
      decreases rest
    {
      var dst :| dst in rest;
      NextPair(trees, pairs0, pairs, t.src, nodes - rest, dst);
      if dst != t.src && dst in t.dist {
        load, pairs := CountOne(es, t, dst, trees, pairs, load);
      }
      assert nodes - (rest - {dst}) == nodes - rest + {dst};
      rest := rest - {dst};
    }
  }

  /** pairs0 plus the routed pairs from src to a node in `done`. */
  ghost predicate PairsOf(trees: map<Id, Tree>, pairs0: set<Key>, pairs: set<Key>, src: Id, done: set<Id>)
  {
    forall p :: p in pairs <==> p in pairs0 || (p.0 == src && Routed(trees, p) && p.1 in done)
  }

  lemma NextPair(trees: map<Id, Tree>, pairs0: set<Key>, pairs: set<Key>, src: Id, done: set<Id>, dst: Id)
    requires PairsOf(trees, pairs0, pairs, src, done) && dst !in done && forall p :: p in pairs0 ==> p.0 != src
    ensures (src, dst) !in pairs
    ensures PairsOf(trees, pairs0, if Routed(trees, (src, dst)) then pairs + {(src, dst)} else pairs, src, done + {dst})
  {
  }

  method AddSource(es: set<Edge>, nodes: set<Id>, src: Id, ghost done: set<Id>,
                   ghost trees0: map<Id, Tree>, ghost pairs0: set<Key>, load0: map<Key, nat>)
    returns (load: map<Key, nat>, ghost trees: map<Id, Tree>, ghost pairs: set<Key>)
    requires src in nodes && NO_ID !in nodes && Ends(es) <= nodes && (forall e :: e in es ==> e.cost > 0.0)
    requires AllCounted(es, done, trees0, pairs0, load0) && src !in done
    ensures AllCounted(es, done + {src}, trees, pairs, load)
  {
    var t := ShortestPaths(es, nodes, src);
    NewSource(es, trees0, pairs0, load0, t);
    trees := trees0[src := t];
    load, pairs := CountSource(es, nodes, t, trees, pairs0, load0);
  }

  /** Everything known after the sources in `done`: pairs are exactly the routed ones. */
  ghost predicate AllCounted(es: set<Edge>, done: set<Id>, trees: map<Id, Tree>, pairs: set<Key>, load: map<Key, nat>)
  {
    && trees.Keys == done && Forest(es, trees) && Counted(es, trees, pairs, load)
    && forall p :: p in pairs <==> Routed(trees, p)
  }

  method RawLoads(es: set<Edge>, nodes: set<Id>)
    returns (load: map<Key, nat>, ghost trees: map<Id, Tree>, ghost pairs: set<Key>)
    requires NO_ID !in nodes && Ends(es) <= nodes && (forall e :: e in es ==> e.cost > 0.0)
    ensures AllCounted(es, nodes, trees, pairs, load)
  {
    load, trees, pairs := map[], map[], {};
    var rest := nodes;
    ghost var done: set<Id> := {};
    while rest != {}
      invariant done + rest == nodes && done !! rest
      invariant AllCounted(es, done, trees, pairs, load)
      decreases rest
    {
      var src :| src in rest;
      load, trees, pairs := AddSource(es, nodes, src, done, trees, pairs, load);
      rest, done := rest - {src}, done + {src};
    }
    assert done == nodes;
  }

  /** The largest counter. */
  method Peak(raw: map<Key, nat>) returns (max: nat)
    requires forall k :: k in raw ==> raw[k] > 0
    ensures forall k :: k in raw ==> raw[k] <= max
    ensures raw.Keys != {} ==> exists k :: k in raw && raw[k] == max
  {
    max := 0;
    var rest := raw.Keys;
    ghost var top: Key := (NO_ID, NO_ID);
    while rest != {}
      invariant rest <= raw.Keys
      invariant forall k :: k in raw.Keys - rest ==> raw[k] <= max
      invariant if raw.Keys == rest then max == 0 else top in raw && raw[top] == max
      decreases rest
    {
      var k :| k in rest;
      if raw[k] > max { max, top := raw[k], k; }
      rest := rest - {k};
    }
  }

  /** Divide by the largest counter. */
  method Normalise(raw: map<Key, nat>) returns (load: map<Key, real>, max: nat)
    requires forall k :: k in raw ==> raw[k] > 0
    ensures load.Keys == raw.Keys
    ensures forall k :: k in load ==> raw[k] <= max && load[k] * max as real == raw[k] as real && 0.0 < load[k] <= 1.0
    ensures load.Keys != {} ==> exists k :: k in load && load[k] == 1.0
  {
    max := Peak(raw);
    load := map k | k in raw :: raw[k] as real / (if max > 0 then max else 1) as real;
    forall k | k in raw
      ensures load[k] * max as real == raw[k] as real && 0.0 < load[k] <= 1.0 && (raw[k] == max ==> load[k] == 1.0)
    {
      Fraction(raw[k], max);
    }
    if raw.Keys != {} {
      ghost var top :| top in raw && raw[top] == max;
      assert load[top] == 1.0;
    }
  }

  lemma Fraction(a: nat, m: nat)
    requires 0 < a <= m
    ensures (a as real / m as real) * m as real == a as real
    ensures 0.0 < a as real / m as real <= 1.0
    ensures a == m ==> a as real / m as real == 1.0
  {
  }

  /** A load for every link: for each source there is a shortest-path tree of the graph
      of the links; a link's raw load is the number of ordered pairs whose tree path
      crosses it, and its load is that divided by the largest one. */
  ghost predicate IsLoadFrom(links: seq<Link>, now: int, maxAge: int, load: map<Key, real>, es: set<Edge>,
                             max: nat, raw: map<Key, nat>, trees: map<Id, Tree>, pairs: set<Key>)
  {
    && IsGraph(links, now, maxAge, es) && AllCounted(es, Ends(es), trees, pairs, raw)
    && load.Keys == raw.Keys
    && (forall k :: k in load ==> raw[k] <= max && load[k] * max as real == raw[k] as real && 0.0 < load[k] <= 1.0)
    && (load.Keys != {} ==> exists k :: k in load && load[k] == 1.0)
  }

  ghost predicate IsLoad(links: seq<Link>, now: int, maxAge: int, load: map<Key, real>)
  {
    exists es, max, raw, trees, pairs :: IsLoadFrom(links, now, maxAge, load, es, max, raw, trees, pairs)
  }

  /** The routed load of every link.  For each source there is a shortest-path tree of
      the usable links; a link's raw load is the number of ordered pairs whose tree path
      crosses it, the raw loads add up to the hop counts of all those paths, and the
      result is the raw load divided by the largest one. */
  method Loads(links: seq<Link>, now: int, maxAge: int)
    returns (load: map<Key, real>, max: nat, ghost graph: set<Edge>, ghost raw: map<Key, nat>,
             ghost trees: map<Id, Tree>, ghost pairs: set<Key>)
    requires forall l :: l in links ==> l.from != NO_ID && l.peer != NO_ID
    ensures IsGraph(links, now, maxAge, graph) && AllCounted(graph, Ends(graph), trees, pairs, raw)
    ensures load.Keys == raw.Keys
    ensures forall k :: k in load ==> raw[k] <= max && load[k] * max as real == raw[k] as real && 0.0 < load[k] <= 1.0
    ensures load.Keys != {} ==> exists k :: k in load && load[k] == 1.0
    ensures IsLoad(links, now, maxAge, load)
  {
    var es, nodes := BuildGraph(links, now, maxAge);
    graph := es;
    var r;
    r, trees, pairs := RawLoads(es, nodes);
    raw := r;
    load, max := Normalise(r);
    assert IsLoadFrom(links, now, maxAge, load, es, max, raw, trees, pairs);
  }

  lemma EdgesSnoc(links: seq<Link>, i: nat, now: int, maxAge: int)
    requires i < |links|
    ensures Edges(links[..i + 1], now, maxAge) ==
            Edges(links[..i], now, maxAge) + if Usable(links[i], now, maxAge) then {EdgeOf(links[i])} else {}
  {
    assert links[..i + 1] == links[..i] + [links[i]];
    var before, after := Edges(links[..i], now, maxAge), Edges(links[..i + 1], now, maxAge);
    forall e | e in before
      ensures e in after
    {
      var l :| l in links[..i] && Usable(l, now, maxAge) && EdgeOf(l) == e;
      assert l in links[..i + 1];
    }
    assert links[i] in links[..i + 1];
  }

  method BuildGraph(links: seq<Link>, now: int, maxAge: int) returns (es: set<Edge>, nodes: set<Id>)
    requires forall l :: l in links ==> l.from != NO_ID && l.peer != NO_ID
    ensures es == Edges(links, now, maxAge) && nodes == Ends(es) && NO_ID !in nodes
    ensures IsGraph(links, now, maxAge, es)
  {
    es, nodes := {}, {};
    var i := 0;
    while i < |links|
      invariant 0 <= i <= |links|
      invariant es == Edges(links[..i], now, maxAge) && nodes == Ends(es) && NO_ID !in nodes
    {
      var l := links[i];
      EdgesSnoc(links, i, now, maxAge);
      if now - l.at < maxAge {
        if !(l.q <= 0.0 && l.rssi == 0) {
          var q := if l.q <= 0.0 then 0.5 else l.q;
          if q < 0.05 { q := 0.05; }
          es := es + {Edge(l.from, l.peer, 1.0 / q)};
          nodes := nodes + {l.from, l.peer};
        }
      }
      i := i + 1;
    }
    assert links[..i] == links;
    GraphMeaning(links, now, maxAge);
  }
}
