/** Direct neighbours with per-direction link quality and link-local aliases
    (lib/mesh/neighbor_table.cpp). */
module NeighborTable {
  import opened Basics
  import opened MeshTypes
  import opened LinkMetric

  const MAX_NEIGHBORS: nat := 32

  // a negative quality means "unknown"
  datatype Neighbor = Neighbor(used: bool, id: NodeId, qRx: real, qTx: real, myAlias: LinkAddr,
                               theirAlias: LinkAddr, lastHeard: nat, caps: nat)

  const VACANT: Neighbor := Neighbor(false, ZERO_ID, -1.0, -1.0, ALIAS_NONE, ALIAS_NONE, 0, 0)

  // --------------------------------------------------- specification on slots

  /** Index of the first slot in use for id, or |s|. */
  function Find(s: seq<Neighbor>, id: NodeId): (i: nat)
    ensures i <= |s|
    ensures i < |s| ==> s[i].used && s[i].id == id
    ensures forall j :: 0 <= j < i ==> !(s[j].used && s[j].id == id)
  {
    if |s| == 0 then 0
    else if s[0].used && s[0].id == id then 0
    else 1 + Find(s[1..], id)
  }

  function FirstFree(s: seq<Neighbor>): (i: nat)
    ensures i <= |s|
    ensures i < |s| ==> !s[i].used
    ensures forall j :: 0 <= j < i ==> s[j].used
  {
    if |s| == 0 || !s[0].used then 0 else 1 + FirstFree(s[1..])
  }

  predicate Taken(s: seq<Neighbor>, a: LinkAddr)
  {
    exists i :: 0 <= i < |s| && s[i].used && s[i].myAlias == a
  }

  /** The k-th alias to try, walking cyclically through 1..254 from the base. */
  function Candidate(base: nat, k: nat): (a: LinkAddr)
    ensures 1 <= a <= 254
  {
    1 + (base + k) % 254
  }

  function AllocAlias(s: seq<Neighbor>, base: nat, k: nat): (a: LinkAddr)
    requires k <= 254
    ensures a == ALIAS_NONE || (1 <= a <= 254 && !Taken(s, a))
    ensures a == ALIAS_NONE ==> forall j :: k <= j < 254 ==> Taken(s, Candidate(base, j))
    decreases 254 - k
  {
    if k == 254 then ALIAS_NONE
    else if !Taken(s, Candidate(base, k)) then Candidate(base, k)
    else AllocAlias(s, base, k + 1)
  }

  function Heard(s: seq<Neighbor>, base: nat, id: NodeId, q: real, now: nat): (t: seq<Neighbor>)
    ensures |t| == |s|
  {
    var i := Find(s, id);
    if i < |s| then s[i := s[i].(qRx := EwmaQuality(s[i].qRx, q), lastHeard := now)]
    else
      var f := FirstFree(s);
      if f == |s| then s
      else
        // the alias search runs with the new slot already in use under its stale alias
        var n := s[f].(used := true, id := id, qRx := -1.0, qTx := -1.0, theirAlias := ALIAS_NONE);
        var a := AllocAlias(s[f := n], base, 0);
        s[f := n.(myAlias := a, qRx := EwmaQuality(-1.0, q), lastHeard := now)]
  }

  function SetTxReport(s: seq<Neighbor>, id: NodeId, q: real): (t: seq<Neighbor>)
    ensures |t| == |s|
  {
    var i := Find(s, id);
    if i < |s| then s[i := s[i].(qTx := EwmaQuality(s[i].qTx, q))] else s
  }

  function SetTheirAlias(s: seq<Neighbor>, id: NodeId, a: LinkAddr): (t: seq<Neighbor>)
    ensures |t| == |s|
  {
    var i := Find(s, id);
    if i < |s| then s[i := s[i].(theirAlias := a)] else s
  }

  function SetCaps(s: seq<Neighbor>, id: NodeId, caps: nat): (t: seq<Neighbor>)
    ensures |t| == |s|
  {
    var i := Find(s, id);
    if i < |s| then s[i := s[i].(caps := caps)] else s
  }

  function TxCost(s: seq<Neighbor>, id: NodeId): real
  {
    var i := Find(s, id);
    var q := if i < |s| && s[i].qTx > 0.0 then s[i].qTx else Q_MIN;
    1.0 / (if q < Q_MIN then Q_MIN else q)
  }

  predicate Stale(n: Neighbor, now: nat, timeout: nat)
  {
    n.used && Elapsed32(now, n.lastHeard) > timeout
  }

  function Prune(s: seq<Neighbor>, now: nat, timeout: nat): (t: seq<Neighbor>)
    ensures |t| == |s|
  {
    seq(|s|, i requires 0 <= i < |s| => if Stale(s[i], now, timeout) then s[i].(used := false) else s[i])
  }

  /** Ids of the pruned neighbours, in slot order. */
  function Removed(s: seq<Neighbor>, now: nat, timeout: nat): (ids: seq<NodeId>)
    ensures |ids| <= |s|
  {
    if |s| == 0 then []
    else (var rest := Removed(s[..|s| - 1], now, timeout);
          var n := s[|s| - 1];
          if Stale(n, now, timeout) then rest + [n.id] else rest)
  }

  // ------------------------------------------------------- what the table means

  ghost predicate UniqueIds(s: seq<Neighbor>)
  {
    forall i, j :: 0 <= i < j < |s| && s[i].used && s[j].used ==> s[i].id != s[j].id
  }

  /** The neighbour with an id: the table as a map. */
  ghost function Entry(s: seq<Neighbor>, id: NodeId): Option<Neighbor>
  {
    var i := Find(s, id);
    if i < |s| then Some(s[i]) else None
  }

  ghost predicate Full(s: seq<Neighbor>)
  {
    forall i :: 0 <= i < |s| ==> s[i].used
  }

  lemma EntryAt(s: seq<Neighbor>, i: nat)
    requires UniqueIds(s) && i < |s| && s[i].used
    ensures Entry(s, s[i].id) == Some(s[i])
  {
  }

  /** A table that differs in one slot, given over to id, knows all others as before. */
  lemma SlotChanged(s: seq<Neighbor>, k: nat, n: Neighbor)
    requires UniqueIds(s) && k < |s| && n.used && (s[k].used ==> s[k].id == n.id)
    requires !s[k].used ==> Entry(s, n.id) == None
    ensures UniqueIds(s[k := n]) && Entry(s[k := n], n.id) == Some(n)
    ensures forall x :: x != n.id ==> Entry(s[k := n], x) == Entry(s, x)
  {
    var t := s[k := n];
    forall j | 0 <= j < |s| && j != k && s[j].used
      ensures s[j].id != n.id
    {
      if s[j].id == n.id { EntryAt(s, j); }
    }
    EntryAt(t, k);
    forall x | x != n.id
      ensures Entry(t, x) == Entry(s, x)
    {
      assert forall j :: 0 <= j < |s| && j != k ==> t[j] == s[j];
      if Find(s, x) < |s| { EntryAt(t, Find(s, x)); }
    }
  }

  /** Hearing a node smooths its quality and refreshes its time; a new one gets an alias
      nobody has, unless the table is full; nobody else is touched. */
  lemma HeardMeaning(s: seq<Neighbor>, base: nat, id: NodeId, q: real, now: nat)
    requires UniqueIds(s) && |s| < 254
    ensures var t, had, got := Heard(s, base, id, q, now), Entry(s, id), Entry(Heard(s, base, id, q, now), id);
            && UniqueIds(t) && (forall x :: x != id ==> Entry(t, x) == Entry(s, x))
            && (had.Some? ==> got == Some(had.value.(qRx := EwmaQuality(had.value.qRx, q), lastHeard := now)))
            && (had.None? ==> (got.None? <==> Full(s)))
            && (had.None? && got.Some? ==>
                && got.value.used && got.value.id == id && got.value.qRx == EwmaQuality(-1.0, q)
                && got.value.qTx < 0.0 && got.value.theirAlias == 0 && got.value.lastHeard == now
                && 1 <= got.value.myAlias <= 254 && forall i :: 0 <= i < |s| && s[i].used ==>
                     s[i].myAlias != got.value.myAlias)
  {
    var i, f, t := Find(s, id), FirstFree(s), Heard(s, base, id, q, now);
    if i < |s| {
      SlotChanged(s, i, t[i]);
    } else if f < |s| {
      SlotChanged(s, f, t[f]);
      var n := s[f].(used := true, id := id, qRx := -1.0, qTx := -1.0, theirAlias := ALIAS_NONE);
      AliasAvailable(s[f := n], base);
      forall k | 0 <= k < |s| && s[k].used
        ensures s[k].myAlias != t[f].myAlias
      {
        assert s[f := n][k] == s[k];
      }
    }
  }

  /** t is s but for what is known of id, which becomes n. */
  ghost predicate Knows(s: seq<Neighbor>, t: seq<Neighbor>, id: NodeId, n: Option<Neighbor>)
  {
    |t| == |s| && UniqueIds(t) && Entry(t, id) == n && forall x :: x != id ==> Entry(t, x) == Entry(s, x)
  }

  /** A report, an alias or capabilities go to that neighbour only. */
  lemma TxReportMeaning(s: seq<Neighbor>, id: NodeId, q: real)
    requires UniqueIds(s)
    ensures Knows(s, SetTxReport(s, id, q), id,
                  match Entry(s, id) case None => None case Some(n) => Some(n.(qTx := EwmaQuality(n.qTx, q))))
  {
    var i := Find(s, id);
    if i < |s| { SlotChanged(s, i, SetTxReport(s, id, q)[i]); }
  }

  lemma TheirAliasMeaning(s: seq<Neighbor>, id: NodeId, a: LinkAddr)
    requires UniqueIds(s)
    ensures Knows(s, SetTheirAlias(s, id, a), id,
                  match Entry(s, id) case None => None case Some(n) => Some(n.(theirAlias := a)))
  {
    var i := Find(s, id);
    if i < |s| { SlotChanged(s, i, SetTheirAlias(s, id, a)[i]); }
  }

  lemma CapsMeaning(s: seq<Neighbor>, id: NodeId, caps: nat)
    requires UniqueIds(s)
    ensures Knows(s, SetCaps(s, id, caps), id,
                  match Entry(s, id) case None => None case Some(n) => Some(n.(caps := caps)))
  {
    var i := Find(s, id);
    if i < |s| { SlotChanged(s, i, SetCaps(s, id, caps)[i]); }
  }

  /** The first hop costs one over how well the neighbour hears us, and 50 while that is
      unknown or hopeless. */
  lemma TxCostMeaning(s: seq<Neighbor>, id: NodeId)
    ensures match Entry(s, id)
            case None => TxCost(s, id) == 50.0
            case Some(n) => if n.qTx >= 0.02 then TxCost(s, id) * n.qTx == 1.0 else TxCost(s, id) == 50.0
  {
  }

  /** Ageing forgets exactly the neighbours not heard for longer than the timeout, and
      lists them. */
  lemma PruneMeaning(s: seq<Neighbor>, now: nat, timeout: nat, x: NodeId)
    requires UniqueIds(s)
    ensures UniqueIds(Prune(s, now, timeout))
    ensures Entry(Prune(s, now, timeout), x) ==
            if Entry(s, x).Some? && Elapsed32(now, Entry(s, x).value.lastHeard) > timeout then None else Entry(s, x)
    ensures x in Removed(s, now, timeout) <==>
            Entry(s, x).Some? && Elapsed32(now, Entry(s, x).value.lastHeard) > timeout
  {
    var t, i := Prune(s, now, timeout), Find(s, x);
    RemovedMeaning(s, now, timeout, x);
    var j := Find(t, x);
    if i < |s| {
      forall k | 0 <= k < |s| && s[k].used && s[k].id == x
        ensures k == i
      {
        EntryAt(s, k);
        SameSlot(s, i, k);
      }
      if !Stale(s[i], now, timeout) { EntryAt(t, i); }
    }
  }

  lemma SameSlot(s: seq<Neighbor>, i: nat, k: nat)
    requires UniqueIds(s) && i < |s| && k < |s| && s[i].used && s[k].used && s[i].id == s[k].id
    ensures i == k
  {
  }

  lemma {:induction false} RemovedMeaning(s: seq<Neighbor>, now: nat, timeout: nat, x: NodeId)
    ensures x in Removed(s, now, timeout) <==>
              exists i :: 0 <= i < |s| && s[i].used && s[i].id == x && Elapsed32(now, s[i].lastHeard) > timeout
  {
    if |s| > 0 {
      var n := |s| - 1;
      RemovedMeaning(s[..n], now, timeout, x);
      if i: nat :| i < |s| && s[i].used && s[i].id == x && Elapsed32(now, s[i].lastHeard) > timeout {
        if i < n { assert s[..n][i] == s[i]; }
      }
    }
  }

  // ------------------------------------------------------------- link qualities

  /** Both directions unknown or usable: what every table operation keeps. */
  ghost predicate Qualities(s: seq<Neighbor>)
  {
    forall i :: 0 <= i < |s| && s[i].used ==>
             (s[i].qRx < 0.0 || Usable(s[i].qRx)) && (s[i].qTx < 0.0 || Usable(s[i].qTx))
  }

  lemma OperationsKeepQualities(s: seq<Neighbor>, base: nat, id: NodeId, q: real, a: LinkAddr, caps: nat, now: nat,
                                timeout: nat)
    requires Qualities(s)
    ensures Qualities(Heard(s, base, id, q, now))
    ensures Qualities(SetTxReport(s, id, q))
    ensures Qualities(SetTheirAlias(s, id, a)) && Qualities(SetCaps(s, id, caps))
    ensures Qualities(Prune(s, now, timeout))
  {
  }

  /** A first hop never costs less than 1 nor more than 1 / Q_MIN = 50. */
  lemma TxCostBounds(s: seq<Neighbor>, id: NodeId)
    requires Qualities(s)
    ensures 1.0 <= TxCost(s, id) <= 50.0
  {
    var i := Find(s, id);
    var q := if i < |s| && s[i].qTx > 0.0 then s[i].qTx else Q_MIN;
  }

  // -------------------------------------------------------------------- aliases

  /** Aliases in use are real (1..254) and no two neighbours share one. */
  ghost predicate AliasesDistinct(s: seq<Neighbor>)
  {
    && (forall i :: 0 <= i < |s| && s[i].used ==> 1 <= s[i].myAlias <= 254)
    && (forall i, j :: 0 <= i < j < |s| && s[i].used && s[j].used ==> s[i].myAlias != s[j].myAlias)
  }

  ghost function Aliases(s: seq<Neighbor>): (r: set<LinkAddr>)
    ensures forall a: LinkAddr :: a in r <==> Taken(s, a)
  {
    set i | 0 <= i < |s| && s[i].used :: s[i].myAlias
  }

  lemma {:induction false} AliasCount(s: seq<Neighbor>)
    ensures |Aliases(s)| <= |s|
  {
    if |s| > 0 {
      var n := |s| - 1;
      AliasCount(s[..n]);
      forall a: LinkAddr | a in Aliases(s)
        ensures a in Aliases(s[..n]) + {s[n].myAlias}
      {
        var i :| 0 <= i < |s| && s[i].used && s[i].myAlias == a;
        if i < n { assert s[..n][i] == s[i]; }
      }
      SubsetSize(Aliases(s), Aliases(s[..n]) + {s[n].myAlias});
    }
  }

  /** The aliases 1..n. */
  ghost function UpTo(n: nat): (r: set<LinkAddr>)
    requires n <= 254
    ensures forall a: LinkAddr :: a in r <==> 1 <= a <= n
    ensures |r| == n
  {
    if n == 0 then {} else UpTo(n - 1) + {n}
  }

  /** A table with fewer than n slots leaves one of the aliases 1..n untaken. */
  lemma SomeAliasFree(s: seq<Neighbor>, n: nat) returns (a: LinkAddr)
    requires |s| < n <= 254
    ensures 1 <= a <= n && !Taken(s, a)
  {
    if UpTo(n) <= Aliases(s) {
      SubsetSize(UpTo(n), Aliases(s));
      AliasCount(s);
      assert false;
    }
    a :| a in UpTo(n) && a !in Aliases(s);
  }

  /** With fewer slots than aliases the search always succeeds. */
  lemma AliasAvailable(s: seq<Neighbor>, base: nat)
    requires |s| < 254
    ensures AllocAlias(s, base, 0) != ALIAS_NONE
  {
    var a := SomeAliasFree(s, 254);
    var k := (a - 1 - base) % 254;
    assert Candidate(base, k) == a;
  }

  /** The alias given out is the first untaken one, walking cyclically from the base. */
  lemma {:induction false} AllocFirst(s: seq<Neighbor>, base: nat, k: nat) returns (j: nat)
    requires k <= 254 && AllocAlias(s, base, k) != ALIAS_NONE
    ensures k <= j < 254 && AllocAlias(s, base, k) == Candidate(base, j)
    ensures forall i :: k <= i < j ==> Taken(s, Candidate(base, i))
    decreases 254 - k
  {
    if !Taken(s, Candidate(base, k)) { j := k; } else { j := AllocFirst(s, base, k + 1); }
  }

  /** The aliases 1 to 254 in turn from the base, so nodes with different bases start apart. */
  lemma CandidateExact(base: nat, k: nat)
    ensures Candidate(base, k + 1) == if Candidate(base, k) == 254 then 1 else Candidate(base, k) + 1
    ensures base < 254 ==> Candidate(base, 0) == base + 1
  {
    var q, r := (base + k) / 254, (base + k) % 254;
    if r == 253 { Mod254(base + k + 1, q + 1, 0); } else { Mod254(base + k + 1, q, r + 1); }
  }

  lemma Mod254(x: nat, q: int, r: int)
    requires x == 254 * q + r && 0 <= r < 254
    ensures x % 254 == r
  {
  }

  /** Hearing a node, new or known, keeps all aliases real and distinct. */
  lemma HeardKeepsAliases(s: seq<Neighbor>, base: nat, id: NodeId, q: real, now: nat)
    requires |s| < 254 && AliasesDistinct(s)
    ensures AliasesDistinct(Heard(s, base, id, q, now))
  {
    var i, f := Find(s, id), FirstFree(s);
    if i == |s| && f < |s| {
      var n := s[f].(used := true, id := id, qRx := -1.0, qTx := -1.0, theirAlias := ALIAS_NONE);
      var t := s[f := n];
      AliasAvailable(t, base);
      var a := AllocAlias(t, base, 0);
      forall j | 0 <= j < |s| && s[j].used
        ensures s[j].myAlias != a
      {
        assert t[j] == s[j];
      }
    }
  }

  /** The node a directed frame comes from, or none: both header aliases must match. */
  ghost predicate LinkOwner(n: Neighbor, nextHop: LinkAddr, prevHop: LinkAddr)
  {
    n.used && n.myAlias == nextHop && n.theirAlias == prevHop
  }

  /** At most one neighbour can own a directed frame. */
  lemma LinkOwnerUnique(s: seq<Neighbor>, i: nat, j: nat, nextHop: LinkAddr, prevHop: LinkAddr)
    requires AliasesDistinct(s) && i < |s| && j < |s|
    requires LinkOwner(s[i], nextHop, prevHop) && LinkOwner(s[j], nextHop, prevHop)
    ensures i == j
  {
  }

  // ---------------------------------------------------------------- the table

  class Table {
    const slots: array<Neighbor>
    var aliasBase: nat

    ghost predicate Valid()
      reads this, slots
    {
      && slots.Length == MAX_NEIGHBORS
      && UniqueIds(slots[..]) && AliasesDistinct(slots[..]) && Qualities(slots[..])
    }

    constructor (aliasBase: nat)
      ensures Valid() && fresh(slots) && this.aliasBase == aliasBase
      ensures forall i :: 0 <= i < MAX_NEIGHBORS ==> slots[i] == VACANT
    {
      this.aliasBase := aliasBase;
      slots := new Neighbor[MAX_NEIGHBORS](_ => VACANT);
    }

    method FindSlot(id: NodeId) returns (i: nat)
      ensures i == Find(slots[..], id)
    {
      i := 0;
      while i < slots.Length && !(slots[i].used && slots[i].id == id)
        invariant 0 <= i <= slots.Length
        invariant forall j :: 0 <= j < i ==> !(slots[j].used && slots[j].id == id)
      {
        i := i + 1;
      }
    }

    method FreeAlias() returns (a: LinkAddr)
      ensures a == AllocAlias(slots[..], aliasBase, 0)
    {
      var k := 0;
      while k < 254
        invariant 0 <= k <= 254
        invariant AllocAlias(slots[..], aliasBase, 0) == AllocAlias(slots[..], aliasBase, k)
      {
        a := Candidate(aliasBase, k);
        var i := 0;
        var taken := false;
        while i < slots.Length && !taken
          invariant 0 <= i <= slots.Length
          invariant !taken ==> forall j :: 0 <= j < i ==> !(slots[j].used && slots[j].myAlias == a)
          invariant taken ==> Taken(slots[..], a)
          decreases slots.Length - i, if taken then 0 else 1
        {
          if slots[i].used && slots[i].myAlias == a {
            assert slots[..][i] == slots[i];
            taken := true;
          } else {
            i := i + 1;
          }
        }
        if !taken { return; }
        k := k + 1;
      }
      a := ALIAS_NONE;
    }

    /** Record a frame heard from id; returns false when the table is full. */
    method Hear(id: NodeId, q: real, now: nat) returns (known: bool)
      requires Valid()
      modifies slots
      ensures Valid()
      ensures slots[..] == Heard(old(slots[..]), aliasBase, id, q, now)
      ensures known <==> exists i :: 0 <= i < slots.Length && slots[i].used && slots[i].id == id
    {
      HeardKeepsAliases(slots[..], aliasBase, id, q, now);
      OperationsKeepQualities(slots[..], aliasBase, id, q, ALIAS_NONE, 0, now, 0);
      HeardMeaning(slots[..], aliasBase, id, q, now);
      var n := FindSlot(id);
      if n == slots.Length {
        n := 0;
        while n < slots.Length && slots[n].used
          invariant 0 <= n <= slots.Length
          invariant forall j :: 0 <= j < n ==> slots[j].used
        {
          n := n + 1;
        }
        if n == slots.Length { return false; }
        slots[n] := slots[n].(used := true, id := id, qRx := -1.0, qTx := -1.0, theirAlias := ALIAS_NONE);
        var a := FreeAlias();
        slots[n] := slots[n].(myAlias := a);
      }
      slots[n] := slots[n].(qRx := EwmaQuality(slots[n].qRx, q), lastHeard := now);
      assert slots[..] == Heard(old(slots[..]), aliasBase, id, q, now);
      known := true;
    }

    method ReportTx(id: NodeId, q: real)
      requires Valid()
      modifies slots
      ensures Valid() && slots[..] == SetTxReport(old(slots[..]), id, q)
    {
      var n := FindSlot(id);
      if n < slots.Length {
        slots[n] := slots[n].(qTx := EwmaQuality(slots[n].qTx, q));
      }
    }

    method LearnAlias(id: NodeId, a: LinkAddr)
      requires Valid()
      modifies slots
      ensures Valid() && slots[..] == SetTheirAlias(old(slots[..]), id, a)
    {
      var n := FindSlot(id);
      if n < slots.Length {
        slots[n] := slots[n].(theirAlias := a);
      }
    }

    method LearnCaps(id: NodeId, caps: nat)
      requires Valid()
      modifies slots
      ensures Valid() && slots[..] == SetCaps(old(slots[..]), id, caps)
    {
      var n := FindSlot(id);
      if n < slots.Length {
        slots[n] := slots[n].(caps := caps);
      }
    }

    method CostTo(id: NodeId) returns (cost: real)
      requires Valid()
      ensures cost == TxCost(slots[..], id) && 1.0 <= cost <= 50.0
    {
      TxCostBounds(slots[..], id);
      var n := FindSlot(id);
      var q := if n < slots.Length && slots[n].qTx > 0.0 then slots[n].qTx else Q_MIN;
      if q < Q_MIN { q := Q_MIN; }
      cost := 1.0 / q;
    }

    /** Drop neighbours not heard for longer than timeout and list them. */
    method Expire(now: nat, timeout: nat) returns (removed: seq<NodeId>)
      requires Valid()
      modifies slots
      ensures Valid()
      ensures slots[..] == Prune(old(slots[..]), now, timeout)
      ensures removed == Removed(old(slots[..]), now, timeout)
    {
      removed := [];
      ghost var s := slots[..];
      var i := 0;
      while i < slots.Length
        invariant 0 <= i <= slots.Length
        invariant forall k :: 0 <= k < i ==> slots[k] == Prune(s, now, timeout)[k]
        invariant forall k :: i <= k < slots.Length ==> slots[k] == s[k]
        invariant removed == Removed(s[..i], now, timeout)
      {
        assert s[..i + 1][..i] == s[..i];
        if slots[i].used && Elapsed32(now, slots[i].lastHeard) > timeout {
          removed := removed + [slots[i].id];
          slots[i] := slots[i].(used := false);
        }
        i := i + 1;
      }
      assert s[..i] == s;
      assert slots[..] == Prune(s, now, timeout);
    }

    /** The neighbour both header aliases of a directed frame agree on, if any. */
    method NeighborByLink(nextHop: LinkAddr, prevHop: LinkAddr) returns (id: NodeId)
      requires Valid()
      ensures forall i :: 0 <= i < slots.Length && nextHop != ALIAS_NONE && LinkOwner(slots[i], nextHop, prevHop) ==>
                id == slots[i].id
      ensures id != ZERO_ID ==>
                exists i :: 0 <= i < slots.Length && LinkOwner(slots[i], nextHop, prevHop) && id == slots[i].id
    {
      if nextHop == ALIAS_NONE { return ZERO_ID; }
      var i := 0;
      while i < slots.Length
        invariant 0 <= i <= slots.Length
        invariant forall j :: 0 <= j < i ==> !LinkOwner(slots[j], nextHop, prevHop)
      {
        if slots[i].used && slots[i].myAlias == nextHop && slots[i].theirAlias == prevHop {
          return slots[i].id;
        }
        i := i + 1;
      }
      id := ZERO_ID;
    }
  }
}
