/** Distance-vector routes (lib/mesh/routing_table.cpp): a fixed table of slots,
    searched and updated in place. */
module RoutingTable {
  import opened Basics
  import opened MeshTypes

  const MAX_ROUTES: nat := 64
  const MAX_HOPS: nat := 16
  const COST_INF: real := 1000000.0
  const EPS: real := 0.0001

  datatype Route = Route(used: bool, dst: NodeId, nextHop: NodeId, cost: real, hops: nat, updated: nat)

  const FREE: Route := Route(false, ZERO_ID, ZERO_ID, COST_INF, 0, 0)

  // --------------------------------------------------- specification on slots

  /** Index of the first slot in use for dst, or |s| when there is none. */
  function Find(s: seq<Route>, dst: NodeId): (i: nat)
    ensures i <= |s|
    ensures i < |s| ==> s[i].used && s[i].dst == dst
    ensures forall j :: 0 <= j < i ==> !(s[j].used && s[j].dst == dst)
  {
    if |s| == 0 then 0
    else if s[0].used && s[0].dst == dst then 0
    else 1 + Find(s[1..], dst)
  }

  /** Index of the first free slot, or |s| when the table is full. */
  function FirstFree(s: seq<Route>): (i: nat)
    ensures i <= |s|
    ensures i < |s| ==> !s[i].used
    ensures forall j :: 0 <= j < i ==> s[j].used
  {
    if |s| == 0 || !s[0].used then 0 else 1 + FirstFree(s[1..])
  }

  ghost predicate UniqueDst(s: seq<Route>)
  {
    forall i, j :: 0 <= i < j < |s| && s[i].used && s[j].used ==> s[i].dst != s[j].dst
  }

  /** The routes in use, as a map from destination: what the table means. */
  ghost function RouteTo(s: seq<Route>, dst: NodeId): Option<Route>
  {
    var i := Find(s, dst);
    if i < |s| then Some(s[i]) else None
  }

  /** Store r in the slot of its destination, else in a free one, else nowhere. */
  function Put(s: seq<Route>, r: Route): (t: seq<Route>)
    ensures |t| == |s|
  {
    var i := Find(s, r.dst);
    if i < |s| then s[i := r]
    else
      var f := FirstFree(s);
      if f < |s| then s[f := r] else s
  }

  function SetSelf(s: seq<Route>, me: NodeId, now: nat): (t: seq<Route>)
    ensures |t| == |s|
  {
    Put(s, Route(true, me, me, 0.0, 0, now))
  }

  /** Does a candidate replace the current route? */
  predicate Accepts(cur: Route, via: NodeId, cost: real)
  {
    cur.nextHop == via || cost < cur.cost - EPS
  }

  predicate Unreachable(cost: real, hops: nat)
  {
    hops > MAX_HOPS || cost >= COST_INF
  }

  function Offer(s: seq<Route>, self: NodeId, r: Route): (t: seq<Route>)
    requires r.used
    ensures |t| == |s|
  {
    if r.dst == self then s
    else
      var i := Find(s, r.dst);
      if Unreachable(r.cost, r.hops) then
        if i < |s| && s[i].nextHop == r.nextHop then s[i := s[i].(used := false)] else s
      else if i < |s| && !Accepts(s[i], r.nextHop, r.cost) then s
      else Put(s, r)
  }

  function Prune(s: seq<Route>, self: NodeId, now: nat, timeout: nat): (t: seq<Route>)
    ensures |t| == |s|
  {
    seq(|s|, i requires 0 <= i < |s| =>
      if s[i].used && s[i].dst != self && Elapsed32(now, s[i].updated) > timeout then s[i].(used := false) else s[i])
  }

  function DropVia(s: seq<Route>, self: NodeId, via: NodeId): (t: seq<Route>)
    ensures |t| == |s|
  {
    seq(|s|, i requires 0 <= i < |s| =>
      if s[i].used && s[i].dst != self && s[i].nextHop == via then s[i].(used := false) else s[i])
  }

  // ------------------------------------------------------- what a table means

  /** With unique destinations, the first match is the only one. */
  lemma FindUnique(s: seq<Route>, i: nat)
    requires UniqueDst(s) && i < |s| && s[i].used
    ensures Find(s, s[i].dst) == i
  {
  }

  lemma PutUnique(s: seq<Route>, r: Route)
    requires UniqueDst(s) && r.used
    ensures UniqueDst(Put(s, r))
  {
  }

  /** Offering a route changes the entry of no other destination; its own entry
      becomes the candidate, stays, or is withdrawn, exactly by the acceptance rule. */
  lemma OfferMeaning(s: seq<Route>, self: NodeId, r: Route, d: NodeId)
    requires UniqueDst(s) && r.used
    ensures UniqueDst(Offer(s, self, r))
    ensures d != r.dst || d == self ==> RouteTo(Offer(s, self, r), d) == RouteTo(s, d)
    ensures r.dst != self ==>
      var cur := RouteTo(s, r.dst);
      RouteTo(Offer(s, self, r), r.dst) ==
        if Unreachable(r.cost, r.hops) then
          if cur.Some? && cur.value.nextHop == r.nextHop then None else cur
        else if cur.Some? && !Accepts(cur.value, r.nextHop, r.cost) then cur
        else if cur.None? && FirstFree(s) == |s| then None
        else Some(r)
  {
    var t := Offer(s, self, r);
    var i, f := Find(s, r.dst), FirstFree(s);
    FindAfter(s, t, if i < |s| then i else f, d);
    FindAfter(s, t, if i < |s| then i else f, r.dst);
  }

  /** A table that differs in one slot answers other destinations as before. */
  lemma FindAfter(s: seq<Route>, t: seq<Route>, k: nat, d: NodeId)
    requires |s| == |t| && UniqueDst(s) && UniqueDst(t)
    requires forall i :: 0 <= i < |s| && i != k ==> s[i] == t[i]
    ensures k < |s| && (!s[k].used || s[k].dst != d) && (!t[k].used || t[k].dst != d) ==> RouteTo(t, d) == RouteTo(s, d)
    ensures k < |s| && t[k].used && t[k].dst == d ==> RouteTo(t, d) == Some(t[k])
    ensures k < |s| && s[k].used && s[k].dst == d && !t[k].used ==> RouteTo(t, d) == None
    ensures k >= |s| ==> RouteTo(t, d) == RouteTo(s, d)
  {
    var i, j := Find(s, d), Find(t, d);
    if k < |s| {
      if t[k].used && t[k].dst == d { FindUnique(t, k); }
      else if j < |t| && j != k { FindUnique(s, j); }
    }
  }

  /** How many more destinations the table has room for. */
  function Room(s: seq<Route>): nat
  {
    if |s| == 0 then 0 else Room(s[..|s| - 1]) + if s[|s| - 1].used then 0 else 1
  }

  lemma {:induction false} RoomFound(s: seq<Route>)
    ensures Room(s) > 0 <==> exists i :: 0 <= i < |s| && !s[i].used
  {
    if |s| > 0 {
      var n := |s| - 1;
      RoomFound(s[..n]);
      if i: nat :| i < |s| && !s[i].used {
        if i < n { assert s[..n][i] == s[i]; }
      }
    }
  }

  lemma {:induction false} RoomAfter(s: seq<Route>, k: nat, r: Route)
    requires k < |s|
    ensures Room(s[k := r]) == Room(s) + (if s[k].used then 1 else 0) - if r.used then 1 else 0
  {
    var n := |s| - 1;
    if k < n {
      RoomAfter(s[..n], k, r);
      assert s[k := r][..n] == s[..n][k := r];
    } else {
      assert s[k := r][..n] == s[..n];
    }
  }

  /** An offer takes at most one slot. */
  lemma OfferRoom(s: seq<Route>, self: NodeId, r: Route)
    requires r.used
    ensures Room(Offer(s, self, r)) + 1 >= Room(s)
  {
    var i, f := Find(s, r.dst), FirstFree(s);
    if i < |s| {
      RoomAfter(s, i, Offer(s, self, r)[i]);
    } else if f < |s| {
      RoomAfter(s, f, r);
    }
  }

  /** Pinning the self route, at no cost and no hops, touches nothing else. */
  lemma SetSelfMeaning(s: seq<Route>, me: NodeId, now: nat, d: NodeId)
    requires UniqueDst(s)
    ensures UniqueDst(SetSelf(s, me, now)) && Room(SetSelf(s, me, now)) + 1 >= Room(s)
    ensures d != me ==> RouteTo(SetSelf(s, me, now), d) == RouteTo(s, d)
    ensures RouteTo(SetSelf(s, me, now), me) ==
            if RouteTo(s, me).None? && Room(s) == 0 then None else Some(Route(true, me, me, 0.0, 0, now))
  {
    var r := Route(true, me, me, 0.0, 0, now);
    var t, i, f := SetSelf(s, me, now), Find(s, me), FirstFree(s);
    RoomFound(s);
    PutUnique(s, r);
    if i < |s| { RoomAfter(s, i, r); } else if f < |s| { RoomAfter(s, f, r); }
    FindAfter(s, t, if i < |s| then i else f, d);
    FindAfter(s, t, if i < |s| then i else f, me);
  }

  /** A table with some slots freed answers as before, or not at all where one was freed. */
  lemma FreedMeaning(s: seq<Route>, t: seq<Route>, d: NodeId)
    requires UniqueDst(s) && |t| == |s|
    requires forall i :: 0 <= i < |s| ==> t[i] == s[i] || t[i] == s[i].(used := false)
    ensures UniqueDst(t)
    ensures RouteTo(t, d) == (if Find(s, d) < |s| && t[Find(s, d)].used then RouteTo(s, d) else None)
  {
    var i, j := Find(s, d), Find(t, d);
    if j < |t| {
      assert t[j] == s[j];
      FindUnique(s, j);
    } else if i < |s| {
      assert t[i] == s[i] || t[i] == s[i].(used := false);
    }
  }

  /** Ageing forgets exactly the routes to others not updated for longer than the timeout. */
  lemma PruneMeaning(s: seq<Route>, self: NodeId, now: nat, timeout: nat, d: NodeId)
    requires UniqueDst(s)
    ensures UniqueDst(Prune(s, self, now, timeout))
    ensures RouteTo(Prune(s, self, now, timeout), d) ==
            if RouteTo(s, d).Some? && d != self && Elapsed32(now, RouteTo(s, d).value.updated) > timeout then None
            else RouteTo(s, d)
  {
    FreedMeaning(s, Prune(s, self, now, timeout), d);
  }

  /** And dropping a next hop exactly the routes to others through it. */
  lemma DropViaMeaning(s: seq<Route>, self: NodeId, via: NodeId, d: NodeId)
    requires UniqueDst(s)
    ensures UniqueDst(DropVia(s, self, via))
    ensures RouteTo(DropVia(s, self, via), d) ==
            if RouteTo(s, d).Some? && d != self && RouteTo(s, d).value.nextHop == via then None else RouteTo(s, d)
  {
    FreedMeaning(s, DropVia(s, self, via), d);
  }

  /** Every route in use satisfies p. */
  ghost predicate AllRoutes(s: seq<Route>, p: Route -> bool)
  {
    forall i :: 0 <= i < |s| && s[i].used ==> p(s[i])
  }

  /** An offer brings in nothing but the candidate itself, and only a reachable one. */
  lemma OfferKeeps(s: seq<Route>, self: NodeId, r: Route, p: Route -> bool)
    requires AllRoutes(s, p) && r.used
    requires r.dst != self && !Unreachable(r.cost, r.hops) ==> p(r)
    ensures AllRoutes(Offer(s, self, r), p)
  {
  }

  lemma PruneKeeps(s: seq<Route>, self: NodeId, now: nat, timeout: nat, p: Route -> bool, q: Route -> bool)
    requires AllRoutes(s, p)
    requires forall r: Route :: p(r) && (r.dst == self || Elapsed32(now, r.updated) <= timeout) ==> q(r)
    ensures AllRoutes(Prune(s, self, now, timeout), q)
  {
  }

  lemma DropViaKeeps(s: seq<Route>, self: NodeId, via: NodeId, p: Route -> bool)
    requires AllRoutes(s, p)
    ensures AllRoutes(DropVia(s, self, via), p)
    ensures AllRoutes(DropVia(s, self, via), (r: Route) => r.dst == self || r.nextHop != via)
  {
  }

  // ---------------------------------------------------------------- the table

  class Table {
    var self: NodeId
    const slots: array<Route>

    ghost predicate Valid()
      reads this, slots
    {
      slots.Length == MAX_ROUTES && UniqueDst(slots[..])
    }

    constructor ()
      ensures Valid() && fresh(slots) && self == ZERO_ID
      ensures forall i :: 0 <= i < MAX_ROUTES ==> slots[i] == FREE
    {
      self := ZERO_ID;
      slots := new Route[MAX_ROUTES](_ => FREE);
    }

    method FindSlot(dst: NodeId) returns (i: nat)
      ensures i == Find(slots[..], dst)
    {
      i := 0;
      while i < slots.Length && !(slots[i].used && slots[i].dst == dst)
        invariant 0 <= i <= slots.Length
        invariant forall j :: 0 <= j < i ==> !(slots[j].used && slots[j].dst == dst)
      {
        i := i + 1;
      }
    }

    method Alloc(dst: NodeId) returns (i: nat)
      modifies slots
      ensures i == FirstFree(old(slots[..]))
      ensures i < slots.Length ==> slots[..] == old(slots[..])[i := FREE.(used := true, dst := dst)]
      ensures i == slots.Length ==> slots[..] == old(slots[..])
    {
      i := 0;
      while i < slots.Length && slots[i].used
        invariant 0 <= i <= slots.Length
        invariant forall j :: 0 <= j < i ==> slots[j].used
      {
        i := i + 1;
      }
      if i < slots.Length {
        slots[i] := FREE.(used := true, dst := dst);
      }
    }

    method PinSelf(me: NodeId, now: nat)
      requires Valid()
      modifies this`self, slots
      ensures Valid() && self == me
      ensures slots[..] == SetSelf(old(slots[..]), me, now)
    {
      self := me;
      var r := FindSlot(me);
      PutUnique(slots[..], Route(true, me, me, 0.0, 0, now));
      if r == slots.Length {
        r := Alloc(me);
      }
      if r == slots.Length { return; }
      slots[r] := Route(true, me, me, 0.0, 0, now);
      assert slots[..] == SetSelf(old(slots[..]), me, now);
    }

    /** Offer a candidate; returns whether the table changed. */
    method Consider(dst: NodeId, nextHop: NodeId, cost: real, hops: nat, now: nat) returns (changed: bool)
      requires Valid()
      modifies slots
      ensures Valid()
      ensures slots[..] == Offer(old(slots[..]), self, Route(true, dst, nextHop, cost, hops, now))
      ensures !changed ==> slots[..] == old(slots[..])
      ensures changed && Unreachable(cost, hops) ==> RouteTo(slots[..], dst) == None
      ensures changed && !Unreachable(cost, hops) ==>
                RouteTo(slots[..], dst) == Some(Route(true, dst, nextHop, cost, hops, now))
    {
      ghost var cand := Route(true, dst, nextHop, cost, hops, now);
      OfferMeaning(slots[..], self, cand, dst);
      if dst == self { return false; }
      if hops > MAX_HOPS || cost >= COST_INF {
        var w := FindSlot(dst);
        if w < slots.Length && slots[w].nextHop == nextHop {
          slots[w] := slots[w].(used := false);
          assert slots[..] == Offer(old(slots[..]), self, cand);
          return true;
        }
        return false;
      }
      var r := FindSlot(dst);
      if r == slots.Length {
        r := Alloc(dst);
        if r == slots.Length { return false; }
        slots[r] := slots[r].(nextHop := nextHop, cost := cost, hops := hops, updated := now);
        assert slots[..] == Offer(old(slots[..]), self, cand);
        return true;
      }
      if slots[r].nextHop == nextHop {
        slots[r] := slots[r].(cost := cost, hops := hops, updated := now);
        assert slots[..] == Offer(old(slots[..]), self, cand);
        return true;
      }
      if cost < slots[r].cost - EPS {
        slots[r] := slots[r].(nextHop := nextHop, cost := cost, hops := hops, updated := now);
        assert slots[..] == Offer(old(slots[..]), self, cand);
        return true;
      }
      return false;
    }

    method NextHop(dst: NodeId) returns (hop: NodeId)
      ensures hop == match RouteTo(slots[..], dst) case Some(r) => r.nextHop case None => ZERO_ID
    {
      var i := FindSlot(dst);
      hop := if i < slots.Length then slots[i].nextHop else ZERO_ID;
    }

    method Expire(now: nat, timeout: nat)
      requires Valid()
      modifies slots
      ensures Valid()
      ensures slots[..] == Prune(old(slots[..]), self, now, timeout)
    {
      var i := 0;
      while i < slots.Length
        invariant 0 <= i <= slots.Length
        invariant forall k :: 0 <= k < i ==> slots[k] == Prune(old(slots[..]), self, now, timeout)[k]
        invariant forall k :: i <= k < slots.Length ==> slots[k] == old(slots[k])
      {
        if slots[i].used && slots[i].dst != self && Elapsed32(now, slots[i].updated) > timeout {
          slots[i] := slots[i].(used := false);
        }
        i := i + 1;
      }
      assert slots[..] == Prune(old(slots[..]), self, now, timeout);
    }

    method Drop(via: NodeId)
      requires Valid()
      modifies slots
      ensures Valid()
      ensures slots[..] == DropVia(old(slots[..]), self, via)
    {
      var i := 0;
      while i < slots.Length
        invariant 0 <= i <= slots.Length
        invariant forall k :: 0 <= k < i ==> slots[k] == DropVia(old(slots[..]), self, via)[k]
        invariant forall k :: i <= k < slots.Length ==> slots[k] == old(slots[k])
      {
        if slots[i].used && slots[i].dst != self && slots[i].nextHop == via {
          slots[i] := slots[i].(used := false);
        }
        i := i + 1;
      }
      assert slots[..] == DropVia(old(slots[..]), self, via);
    }
  }
}
