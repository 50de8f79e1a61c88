/** The power controller's cycle (Engine.Tick in controller/internal/policy/engine.go):
    confirm or abandon pending decreases, decide for every managed node, apply at most
    one change per settle window, and keep held nodes alive with heartbeats.  What it
    has sent is recorded in a ghost history on which its safety discipline is stated. */
module Engine {
  import opened Basics
  import opened Topo
  import Policy
  import ConnFloor
  import LinkLoad

  type i8 = Policy.i8

  // ------------------------------------------------------------------ history

  datatype Kind = Raised | Lowered | Heartbeat

  /** A command the radio accepted, or the point where a decrease is given up. */
  datatype Event =
    | Power(node: Id, dbm: i8, at: int, kind: Kind)
    | Confirm(node: Id, dbm: i8, at: int)
    | Abandon(node: Id, at: int)

  /** The dBm of the last POWER sent to n. */
  ghost function LastPower(h: seq<Event>, n: Id): Option<i8>
  {
    if |h| == 0 then None
    else
      var e := h[|h| - 1];
      if e.Power? && e.node == n then Some(e.dbm) else LastPower(h[..|h| - 1], n)
  }

  /** When n was last sent a command. */
  ghost function LastSpoken(h: seq<Event>, n: Id): Option<int>
  {
    if |h| == 0 then None
    else
      var e := h[|h| - 1];
      if e.node == n && !e.Abandon? then Some(e.at) else LastSpoken(h[..|h| - 1], n)
  }

  /** A decrease of n is waiting for its CONFIRM. */
  ghost predicate Open(h: seq<Event>, n: Id)
  {
    if |h| == 0 then false
    else
      var e := h[|h| - 1];
      if e.node == n then e.Power? && e.kind == Lowered else Open(h[..|h| - 1], n)
  }

  ghost predicate IsChange(e: Event)
  {
    e.Power? && e.kind != Heartbeat
  }

  /** e may follow the history h. */
  ghost predicate Allowed(h: seq<Event>, e: Event, settle: int)
  {
    match e
    case Power(n, dbm, at, kind) =>
      && !Open(h, n)
      && (kind == Heartbeat ==> LastPower(h, n) == Some(dbm))
      && (kind != Heartbeat && settle > 0 ==> forall j :: 0 <= j < |h| && IsChange(h[j]) ==> at - h[j].at >= settle)
    case Confirm(n, dbm, at) => Open(h, n) && LastPower(h, n) == Some(dbm)
    case Abandon(n, at) => Open(h, n)
  }

  /** Every event was allowed when it happened. */
  ghost predicate Disciplined(h: seq<Event>, settle: int)
  {
    forall k :: 0 <= k < |h| ==> Allowed(h[..k], h[k], settle)
  }

  lemma Append(h: seq<Event>, e: Event, settle: int)
    requires Disciplined(h, settle) && Allowed(h, e, settle)
    ensures Disciplined(h + [e], settle)
    ensures forall n :: LastPower(h + [e], n) == if e.Power? && e.node == n then Some(e.dbm) else LastPower(h, n)
    ensures forall n :: Open(h + [e], n) == if e.node == n then e.Power? && e.kind == Lowered else Open(h, n)
    ensures forall n :: LastSpoken(h + [e], n) == if e.node == n && !e.Abandon? then Some(e.at) else LastSpoken(h, n)
  {
    var h' := h + [e];
    assert h'[..|h|] == h;
    forall k | 0 <= k < |h'|
      ensures Allowed(h'[..k], h'[k], settle)
    {
      if k < |h| { assert h'[..k] == h[..k]; }
    }
  }

  /** Read off the history: a CONFIRM repeats the dBm of the decrease it confirms, with
      no command to that node in between. */
  lemma {:induction false} OpenDecrease(h: seq<Event>, n: Id) returns (j: nat)
    requires Open(h, n)
    ensures j < |h| && h[j].Power? && h[j].kind == Lowered && h[j].node == n && LastPower(h, n) == Some(h[j].dbm)
    ensures forall k :: j < k < |h| ==> h[k].node != n
  {
    var last := |h| - 1;
    if h[last].node == n {
      j := last;
    } else {
      j := OpenDecrease(h[..last], n);
    }
  }

  lemma ConfirmsMatch(h: seq<Event>, settle: int, k: nat) returns (j: nat)
    requires Disciplined(h, settle) && k < |h| && h[k].Confirm?
    ensures j < k && h[j].Power? && h[j].kind == Lowered && h[j].node == h[k].node && h[j].dbm == h[k].dbm
    ensures forall i :: j < i < k ==> h[i].node != h[k].node
  {
    assert Allowed(h[..k], h[k], settle);
    j := OpenDecrease(h[..k], h[k].node);
    assert forall i :: 0 <= i < k ==> h[..k][i] == h[i];
  }

  /** Between a decrease and the next POWER to the same node lies its CONFIRM or the
      moment it was abandoned. */
  lemma NoPowerWhileOpen(h: seq<Event>, settle: int, j: nat, k: nat)
    requires Disciplined(h, settle) && j < k < |h|
    requires h[j].Power? && h[j].kind == Lowered && h[k].Power? && h[k].node == h[j].node
    ensures exists i :: j < i < k && h[i].node == h[j].node && !h[i].Power?
  {
    assert Allowed(h[..k], h[k], settle);
    if forall i :: j < i < k && h[i].node == h[j].node ==> h[i].Power? {
      var i := FirstAfter(h, j, k);
      assert Allowed(h[..i], h[i], settle);
      StaysOpen(h, j, i);
      assert false;
    }
  }

  /** The first event for h[j]'s node after j, at the latest k. */
  lemma FirstAfter(h: seq<Event>, j: nat, k: nat) returns (i: nat)
    requires j < k < |h| && h[k].node == h[j].node
    ensures j < i <= k && h[i].node == h[j].node
    ensures forall m :: j < m < i ==> h[m].node != h[j].node
  {
    i := j + 1;
    while h[i].node != h[j].node
      invariant j < i <= k
      invariant forall m :: j < m < i ==> h[m].node != h[j].node
      decreases k - i
    {
      i := i + 1;
    }
  }

  lemma {:induction false} StaysOpen(h: seq<Event>, j: nat, i: nat)
    requires j < i <= |h| && h[j].Power? && h[j].kind == Lowered
    requires forall m :: j < m < i ==> h[m].node != h[j].node
    ensures Open(h[..i], h[j].node)
  {
    if i > j + 1 {
      StaysOpen(h, j, i - 1);
      assert h[..i][..i - 1] == h[..i - 1];
    } else {
      assert h[..i][i - 1] == h[j];
    }
  }

  /** With serialisation on, any two power changes are at least the window apart. */
  lemma ChangesApart(h: seq<Event>, settle: int, j: nat, k: nat)
    requires Disciplined(h, settle) && settle > 0 && j < k < |h| && IsChange(h[j]) && IsChange(h[k])
    ensures h[k].at - h[j].at >= settle
  {
    assert Allowed(h[..k], h[k], settle);
    assert h[..k][j] == h[j];
  }

  /** Every POWER of the history lies between lo and hi. */
  ghost predicate PowersWithin(h: seq<Event>, lo: int, hi: int)
  {
    forall k :: 0 <= k < |h| && h[k].Power? ==> lo <= h[k].dbm <= hi
  }

  lemma {:induction false} LastPowerWithin(h: seq<Event>, n: Id, lo: int, hi: int)
    requires PowersWithin(h, lo, hi) && LastPower(h, n).Some?
    ensures lo <= LastPower(h, n).value <= hi
  {
    var last := |h| - 1;
    if !(h[last].Power? && h[last].node == n) { LastPowerWithin(h[..last], n, lo, hi); }
  }

  /** Limits on the changes alone bound every command, for a heartbeat repeats the last. */
  lemma {:induction false} ChangesBoundPowers(h: seq<Event>, settle: int, lo: int, hi: int)
    requires Disciplined(h, settle) && forall k :: 0 <= k < |h| && IsChange(h[k]) ==> lo <= h[k].dbm <= hi
    ensures PowersWithin(h, lo, hi)
  {
    if |h| > 0 {
      var last := |h| - 1;
      forall k | 0 <= k < last
        ensures Allowed(h[..last][..k], h[k], settle)
      {
        assert h[..last][..k] == h[..k];
      }
      ChangesBoundPowers(h[..last], settle, lo, hi);
      assert Allowed(h[..last], h[last], settle);
      if h[last].Power? && h[last].kind == Heartbeat { LastPowerWithin(h[..last], h[last].node, lo, hi); }
      assert forall k :: 0 <= k < last ==> h[..last][k] == h[k];
    }
  }

  /** The controller's bookkeeping agrees with its history. */
  ghost predicate Books(h: seq<Event>, settle: int, targets: map<Id, i8>, pending: map<Id, i8>,
                        lastSent: map<Id, int>, lastMutation: Option<int>)
  {
    && Disciplined(h, settle)
    && (forall n {:trigger Open(h, n)} :: n in pending <==> Open(h, n))
    && (forall n {:trigger LastPower(h, n)} :: n in pending ==> LastPower(h, n) == Some(pending[n]))
    && (forall n {:trigger LastPower(h, n)} :: LastPower(h, n).Some? ==>
        n in targets && LastPower(h, n) == Some(targets[n]))
    && (forall n {:trigger LastPower(h, n)} :: n in lastSent ==> LastPower(h, n).Some?)
    && (forall n {:trigger LastSpoken(h, n)} :: LastSpoken(h, n) == if n in lastSent then Some(lastSent[n]) else None)
    && (settle > 0 ==> forall j :: 0 <= j < |h| && IsChange(h[j]) ==>
        lastMutation.Some? && h[j].at <= lastMutation.value)
  }

  /** A pending decrease is confirmed. */
  lemma ConfirmBooks(h: seq<Event>, settle: int, targets: map<Id, i8>, pending: map<Id, i8>, lastSent: map<Id, int>,
                     lastMutation: Option<int>, n: Id, now: int)
    requires Books(h, settle, targets, pending, lastSent, lastMutation) && n in pending
    ensures Books(h + [Confirm(n, pending[n], now)], settle, targets, pending - {n}, lastSent[n := now], lastMutation)
  {
    Append(h, Confirm(n, pending[n], now), settle);
  }

  /** Or given up. */
  lemma AbandonBooks(h: seq<Event>, settle: int, targets: map<Id, i8>, pending: map<Id, i8>, lastSent: map<Id, int>,
                     lastMutation: Option<int>, n: Id, now: int)
    requires Books(h, settle, targets, pending, lastSent, lastMutation) && n in pending
    ensures Books(h + [Abandon(n, now)], settle, targets, pending - {n}, lastSent, lastMutation)
  {
    Append(h, Abandon(n, now), settle);
  }

  /** A decrease is sent to a node without one pending, or an increase. */
  lemma LowerBooks(h: seq<Event>, settle: int, targets: map<Id, i8>, pending: map<Id, i8>, lastSent: map<Id, int>,
                   lastMutation: Option<int>, n: Id, dbm: i8, now: int)
    requires Books(h, settle, targets, pending, lastSent, lastMutation) && n !in pending
    requires settle > 0 ==> lastMutation.None? || now - lastMutation.value >= settle
    ensures Books(h + [Power(n, dbm, now, Lowered)], settle, targets[n := dbm], pending[n := dbm], lastSent[n := now],
                  if settle > 0 then Some(now) else lastMutation)
  {
    Append(h, Power(n, dbm, now, Lowered), settle);
  }

  lemma RaiseBooks(h: seq<Event>, settle: int, targets: map<Id, i8>, pending: map<Id, i8>, lastSent: map<Id, int>,
                   lastMutation: Option<int>, n: Id, dbm: i8, now: int)
    requires Books(h, settle, targets, pending, lastSent, lastMutation) && n !in pending
    requires settle > 0 ==> lastMutation.None? || now - lastMutation.value >= settle
    ensures Books(h + [Power(n, dbm, now, Raised)], settle, targets[n := dbm], pending, lastSent[n := now],
                  if settle > 0 then Some(now) else lastMutation)
  {
    Append(h, Power(n, dbm, now, Raised), settle);
  }

  lemma BeatBooks(h: seq<Event>, settle: int, targets: map<Id, i8>, pending: map<Id, i8>, lastSent: map<Id, int>,
                  lastMutation: Option<int>, n: Id, now: int)
    requires Books(h, settle, targets, pending, lastSent, lastMutation) && n !in pending && n in lastSent
    ensures n in targets
    ensures Books(h + [Power(n, targets[n], now, Heartbeat)], settle, targets, pending, lastSent[n := now],
                  lastMutation)
  {
    assert LastPower(h, n).Some?;
    Append(h, Power(n, targets[n], now, Heartbeat), settle);
  }

  /** Dry-run only advances the window. */
  lemma DryBooks(h: seq<Event>, settle: int, targets: map<Id, i8>, pending: map<Id, i8>, lastSent: map<Id, int>,
                 lastMutation: Option<int>, now: int)
    requires Books(h, settle, targets, pending, lastSent, lastMutation)
    requires lastMutation.None? || now - lastMutation.value >= settle
    ensures settle > 0 ==> Books(h, settle, targets, pending, lastSent, Some(now))
  {
  }

  // --------------------------------------------------------------- candidates

  datatype Config = Config(policy: Policy.Config, defaultSf: int, seedPower: i8, mobileLowerHold: int, settle: int,
                           connFloor: int)

  datatype Cand = Cand(id: Id, d: Policy.Decision, cur: i8)

  predicate Changes(d: Policy.Decision) { d.action == Policy.Lower || d.action == Policy.Raise }

  /** Raises before lowers; among raises the most marginal, among lowers the loudest. */
  function Priority(d: Policy.Decision): real
  {
    if d.action == Policy.Raise then 1000000.0 - d.margin else d.margin
  }

  /** A raise outranks a lower exactly while their margins sum to less than a million. */
  lemma RaisesOutrank(a: Policy.Decision, b: Policy.Decision)
    requires a.action == Policy.Raise && b.action == Policy.Lower
    ensures Priority(a) > Priority(b) <==> a.margin + b.margin < 1000000.0
  {
  }

  /** The default policy trims a link reported a million dB strong before it raises any
      node whose margin is not negative; of the wanted 999991 dB int8 keeps 55. */
  lemma LowerFirst(want: int)
    requires want >= 999991 && Policy.Wrap8(want) >= 3
    ensures var lower := Policy.Decide(Policy.DEFAULT, Policy.Reading(true, want as real + 9.0, false, false, 0.0), 0);
            && lower.action == Policy.Lower
            && forall d: Policy.Decision :: d.action == Policy.Raise && d.margin >= 0.0 ==>
                 Priority(d) <= Priority(lower)
  {
    assert Policy.Round(want as real) == want;
    assert Policy.Delta(Policy.DEFAULT, Policy.Reading(true, want as real + 9.0, false, false, 0.0)) == -3;
  }

  /** The index of the change of highest priority, -1 when nothing wants to change. */
  method Pick(cands: seq<Cand>) returns (pick: int)
    ensures -1 <= pick < |cands|
    ensures pick >= 0 ==> Changes(cands[pick].d)
    ensures pick >= 0 ==> forall i :: 0 <= i < |cands| && Changes(cands[i].d) ==>
              Priority(cands[i].d) <= Priority(cands[pick].d)
    ensures pick < 0 ==> forall i :: 0 <= i < |cands| ==> !Changes(cands[i].d)
  {
    pick := -1;
    var i := 0;
    while i < |cands|
      invariant 0 <= i <= |cands| && -1 <= pick < i
      invariant pick >= 0 ==> Changes(cands[pick].d)
      invariant pick >= 0 ==> forall j :: 0 <= j < i && Changes(cands[j].d) ==>
                  Priority(cands[j].d) <= Priority(cands[pick].d)
      invariant pick < 0 ==> forall j :: 0 <= j < i ==> !Changes(cands[j].d)
    {
      if Changes(cands[i].d) && (pick < 0 || Priority(cands[i].d) > Priority(cands[pick].d)) {
        pick := i;
      }
      i := i + 1;
    }
  }

  /** Nodes the controller may tune. */
  predicate Managed(snap: Snapshot, n: Node)
  {
    !n.isGateway && n.id != snap.gateway && (n.acl == "" || n.acl == "allowed")
  }

  ghost predicate SnapshotOk(snap: Snapshot)
  {
    && (forall i, j :: 0 <= i < j < |snap.nodes| ==> snap.nodes[i].id != snap.nodes[j].id)
    && (forall l :: l in snap.links ==> l.from != NO_ID && l.peer != NO_ID)
  }

  ghost predicate DistinctCands(cands: seq<Cand>)
  {
    forall i, j :: 0 <= i < j < |cands| ==> cands[i].id != cands[j].id
  }

  /** A counter, zero where none is kept. */
  function Counter(m: map<Id, int>, n: Id): int
  {
    if n in m then m[n] else 0
  }

  /** What is seen of one node: the observation, and the peers that keep the gateway. */
  datatype Sight = Sight(obs: ConnFloor.Observation, reach: set<Id>)

  datatype Survey = Survey(adj: ConnFloor.Adjacency, load: map<LinkLoad.Key, real>, sights: seq<Sight>)

  /** The decreases waiting for a CONFIRM, and when each node was last sent a command. */
  datatype Desk = Desk(pending: map<Id, i8>, miss: map<Id, int>, lastSent: map<Id, int>)

  /** What the changes made in a cycle leave behind. */
  datatype Ledger = Ledger(targets: map<Id, i8>, pending: map<Id, i8>, miss: map<Id, int>)

  datatype Memory = Memory(targets: map<Id, i8>, streaks: map<Id, int>)

  function ChangeOf(c: Cand, now: int): Event
  {
    Power(c.id, c.d.newTarget, now, if c.d.action == Policy.Lower then Lowered else Raised)
  }

  // ------------------------------------------------------------------- engine

  class Controller {
    const cfg: Config
    const maxAge: int
    const heartbeat: int
    const radio: nat -> bool  // does the n-th attempt to sign and send a command succeed?
    var attempts: nat
    const hasKey: bool        // without a controller key APPLY mode stays dry-run
    var apply: bool
    var targets: map<Id, i8>
    var pending: map<Id, i8>
    var miss: map<Id, int>
    var lastSent: map<Id, int>
    var overband: map<Id, int>
    var lastMutation: Option<int>  // None: no power was ever changed
    ghost var log: seq<Event>

    /** The bookkeeping agrees with the history. */
    ghost predicate Valid()
      reads this
    {
      Books(log, cfg.settle, targets, pending, lastSent, lastMutation)
    }

    /** Every POWER of the history is inside the limits, if these are ordered at all. */
    ghost predicate InLimits(h: seq<Event>)
    {
      cfg.policy.powerMin <= cfg.policy.powerMax ==> PowersWithin(h, cfg.policy.powerMin, cfg.policy.powerMax)
    }

    /** No command ever left the power limits. */
    ghost predicate Within()
      reads `log
    {
      InLimits(log)
    }

    constructor (cfg: Config, maxAge: int, heartbeat: int, radio: nat -> bool, hasKey: bool, apply: bool)
      ensures Valid() && Within() && log == [] && this.cfg == cfg
    {
      this.cfg := cfg;
      this.maxAge := maxAge;
      this.heartbeat := heartbeat;
      this.radio := radio;
      this.hasKey := hasKey;
      this.apply := apply;
      attempts := 0;
      targets, pending, miss, lastSent, overband := map[], map[], map[], map[], map[];
      lastMutation := None;
      log := [];
    }

    /** Commands are signed and sent; otherwise the cycle is a dry-run. */
    predicate Live()
      reads `apply
    {
      apply && hasKey
    }

    method SetApply(on: bool)
      requires Valid()
      modifies `apply
      ensures Valid() && (old(Within()) ==> Within())
      ensures apply == on && (Live() <==> on && hasKey)
    {
      apply := on;
    }

    method TrySend() returns (ok: bool)
      modifies `attempts
      ensures ok == radio(old(attempts)) && attempts == old(attempts) + 1
    {
      ok := radio(attempts);
      attempts := attempts + 1;
    }

    /** Live, and every command gets signed and sent. */
    ghost predicate AlwaysSends()
      reads `apply
    {
      Live() && forall k :: radio(k)
    }

    ghost function Waiting(): Desk
      reads `pending, `miss, `lastSent
    {
      Desk(pending, miss, lastSent)
    }

    /** Two records agree on when a node was last sent a command. */
    ghost predicate SameTime(a: map<Id, int>, b: map<Id, int>, n: Id)
    {
      (n in a <==> n in b) && (n in a ==> a[n] == b[n])
    }

    /** e ends a pending decrease in this cycle: the node is heard, and e is the CONFIRM
        of the dBm it was lowered to or, when that cannot be sent, the end of waiting; or
        nobody hears it for the second time. */
    ghost predicate Ends(links: seq<Link>, was: Desk, live: bool, e: Event, now: int)
    {
      && e.node in was.pending
      && (e == Abandon(e.node, now) || (live && e == Confirm(e.node, was.pending[e.node], now)))
      && (!ConnFloor.IsHeard(links, e.node, now, maxAge) ==> e.Abandon? && Counter(was.miss, e.node) >= 1)
    }

    /** What resolving does to one node that was waiting. */
    ghost predicate Resolved(links: seq<Link>, was: Desk, desk: Desk, added: seq<Event>, sends: bool, n: Id, now: int)
    {
      var heard := ConnFloor.IsHeard(links, n, now, maxAge);
      n in was.pending ==>
        && (n in desk.pending <==> !heard && Counter(was.miss, n) < 1)
        && (n in desk.pending ==>
              desk.pending[n] == was.pending[n] && Counter(desk.miss, n) == Counter(was.miss, n) + 1)
        && (!heard && Counter(was.miss, n) >= 1 ==> Abandon(n, now) in added)
        && (heard && sends ==> Confirm(n, was.pending[n], now) in added && Abandon(n, now) !in added)
        && (heard && sends ==> n in desk.lastSent && desk.lastSent[n] == now)
    }

    /** A node that is not being resolved. */
    ghost predicate LeftAlone(was: Desk, desk: Desk, n: Id)
    {
      && (n in was.pending <==> n in desk.pending) && (n in was.pending ==> was.pending[n] == desk.pending[n])
      && Counter(was.miss, n) == Counter(desk.miss, n) && SameTime(was.lastSent, desk.lastSent, n)
    }

    ghost predicate SameOrNow(was: Desk, desk: Desk, n: Id, now: int)
    {
      SameTime(was.lastSent, desk.lastSent, n) || SameTime(map[n := now], desk.lastSent, n)
    }

    /** One node was resolved. */
    ghost predicate ResolvedOne(links: seq<Link>, was: Desk, desk: Desk, added: seq<Event>, live: bool, sends: bool,
                                n: Id, now: int)
    {
      && Resolved(links, was, desk, added, sends, n, now) && SameOrNow(was, desk, n, now)
      && (forall m :: m != n ==> LeftAlone(was, desk, m))
      && (forall e :: e in added ==> e.node == n && Ends(links, was, live, e, now))
    }

    /** Those no longer in `rest` were resolved, the others not touched yet. */
    ghost predicate Resolving(links: seq<Link>, was: Desk, desk: Desk, rest: set<Id>, added: seq<Event>, live: bool,
                              sends: bool, now: int)
    {
      && rest <= was.pending.Keys
      && (forall n :: n !in was.pending || n in rest ==> LeftAlone(was, desk, n))
      && (forall n :: n !in rest ==> Resolved(links, was, desk, added, sends, n, now))
      && (forall e :: e in added ==> e.node !in rest && Ends(links, was, live, e, now))
      && (forall n :: SameOrNow(was, desk, n, now))
    }

    lemma ResolvedNext(links: seq<Link>, was: Desk, mid: Desk, desk: Desk, rest: set<Id>, added: seq<Event>,
                       more: seq<Event>, live: bool, sends: bool, n: Id, now: int)
      requires Resolving(links, was, mid, rest, added, live, sends, now) && n in rest
      requires ResolvedOne(links, mid, desk, more, live, sends, n, now)
      ensures Resolving(links, was, desk, rest - {n}, added + more, live, sends, now)
    {
      assert LeftAlone(was, mid, n);
      forall m
        ensures m != n && m !in rest ==> Resolved(links, was, desk, added + more, sends, m, now)
        ensures m == n ==> Resolved(links, was, desk, added + more, sends, m, now)
        ensures SameOrNow(was, desk, m, now)
        ensures m !in was.pending || m in rest - {n} ==> LeftAlone(was, desk, m)
      {
        assert SameOrNow(was, mid, m, now);
        if m != n { ResolvedStays(links, was, mid, desk, rest, added, more, sends, n, m, now); }
      }
      forall e | e in added + more
        ensures e.node !in rest - {n} && Ends(links, was, live, e, now)
      {
        if e in more { assert Ends(links, mid, live, e, now); }
      }
    }

    lemma ResolvedStays(links: seq<Link>, was: Desk, mid: Desk, desk: Desk, rest: set<Id>, added: seq<Event>,
                        more: seq<Event>, sends: bool, n: Id, m: Id, now: int)
      requires m != n && LeftAlone(mid, desk, m) && forall e :: e in more ==> e.node == n
      ensures Resolved(links, was, mid, added, sends, m, now) ==>
                Resolved(links, was, desk, added + more, sends, m, now)
      ensures SameOrNow(was, mid, m, now) ==> SameOrNow(was, desk, m, now)
      ensures LeftAlone(was, mid, m) ==> LeftAlone(was, desk, m)
    {
    }

    lemma OneMissed(links: seq<Link>, was: Desk, live: bool, sends: bool, n: Id, now: int)
      requires n in was.pending && !ConnFloor.IsHeard(links, n, now, maxAge) && Counter(was.miss, n) < 1
      ensures ResolvedOne(links, was, was.(miss := was.miss[n := Counter(was.miss, n) + 1]), [], live, sends, n, now)
    {
    }

    lemma OneClosed(links: seq<Link>, was: Desk, missed: map<Id, int>, live: bool, sends: bool, n: Id, confirmed: bool,
                    now: int)
      requires n in was.pending && missed - {n} == was.miss - {n}
      requires var heard := ConnFloor.IsHeard(links, n, now, maxAge);
               if heard then (confirmed ==> live) && (sends ==> confirmed) else !confirmed && Counter(was.miss, n) >= 1
      ensures ResolvedOne(links, was, Desk(was.pending - {n}, missed - {n},
                                           if confirmed then was.lastSent[n := now] else was.lastSent),
                          [if confirmed then Confirm(n, was.pending[n], now) else Abandon(n, now)], live, sends, n, now)
    {
      var e := if confirmed then Confirm(n, was.pending[n], now) else Abandon(n, now);
      assert e in [e];
    }

    /** A decrease that is still reachable is confirmed; otherwise two misses give it up. */
    method ResolveOne(n: Id, links: seq<Link>, now: int)
      requires Valid() && n in pending
      modifies `attempts, `pending, `miss, `lastSent, `log
      ensures Valid() && old(log) <= log
      ensures ResolvedOne(links, old(Waiting()), Waiting(), log[|old(log)|..], Live(), AlwaysSends(), n, now)
      ensures log == old(log) + if n in pending then []
                                else if ConnFloor.IsHeard(links, n, now, maxAge) && Live() && radio(old(attempts))
                                then [Confirm(n, old(pending)[n], now)] else [Abandon(n, now)]
    {
      ghost var was := Waiting();
      var obs := ConnFloor.Observe(links, n, cfg.defaultSf, now, maxAge);
      if obs.hasObs {
        var ok := false;
        if Live() {
          ok := TrySend();
        }
        OneClosed(links, was, miss, Live(), AlwaysSends(), n, ok, now);
        Close(n, ok, now);
      } else {
        miss := miss[n := Counter(miss, n) + 1];
        if miss[n] >= 2 {
          assert miss - {n} == was.miss - {n};
          OneClosed(links, was, miss, Live(), AlwaysSends(), n, false, now);
          Close(n, false, now);
        } else {
          OneMissed(links, was, Live(), AlwaysSends(), n, now);
        }
      }
    }

    /** Forget a pending decrease, confirmed or not. */
    method Close(n: Id, confirmed: bool, now: int)
      requires Valid() && n in pending
      modifies `pending, `miss, `lastSent, `log
      ensures Valid() && pending == old(pending) - {n} && miss == old(miss) - {n}
      ensures lastSent == if confirmed then old(lastSent)[n := now] else old(lastSent)
      ensures log == old(log) + [if confirmed then Confirm(n, old(pending)[n], now) else Abandon(n, now)]
    {
      if confirmed {
        ConfirmBooks(log, cfg.settle, targets, pending, lastSent, lastMutation, n, now);
        log := log + [Confirm(n, pending[n], now)];
        lastSent := lastSent[n := now];
      } else {
        AbandonBooks(log, cfg.settle, targets, pending, lastSent, lastMutation, n, now);
        log := log + [Abandon(n, now)];
      }
      pending := pending - {n};
      miss := miss - {n};
    }

    /** After this, a node is still pending exactly when nobody hears it for the first
        time; every decrease that is heard again was confirmed, if it could be sent, and
        nothing else was sent. */
    method ResolvePending(links: seq<Link>, now: int)
      requires Valid()
      modifies `attempts, `pending, `miss, `lastSent, `log
      ensures Valid() && old(log) <= log
      ensures Resolving(links, old(Waiting()), Waiting(), {}, log[|old(log)|..], Live(), AlwaysSends(), now)
    {
      var rest := pending.Keys;
      ghost var was, h0 := Waiting(), log;
      while rest != {}
        invariant Valid() && h0 <= log
        invariant Resolving(links, was, Waiting(), rest, log[|h0|..], Live(), AlwaysSends(), now)
        decreases rest
      {
        var n :| n in rest;
        ResolveNext(n, links, was, rest, h0, now);
        rest := rest - {n};
      }
    }

    method ResolveNext(n: Id, links: seq<Link>, ghost was: Desk, ghost rest: set<Id>, ghost h0: seq<Event>, now: int)
      requires Valid() && n in rest && h0 <= log
      requires Resolving(links, was, Waiting(), rest, log[|h0|..], Live(), AlwaysSends(), now)
      modifies `attempts, `pending, `miss, `lastSent, `log
      ensures Valid() && h0 <= log
      ensures Resolving(links, was, Waiting(), rest - {n}, log[|h0|..], Live(), AlwaysSends(), now)
    {
      ghost var mid, h := Waiting(), log;
      assert LeftAlone(was, mid, n);
      ResolveOne(n, links, now);
      assert log[|h0|..] == h[|h0|..] + log[|h|..];
      ResolvedNext(links, was, mid, Waiting(), rest, h[|h0|..], log[|h|..], Live(), AlwaysSends(), n, now);
    }

    function SfOf(n: Node): int
    {
      if n.sf <= 0 then cfg.defaultSf else n.sf
    }

    /** What the controller sees of a node: its weakest outbound link, or under the
        connectivity floor the weakest one it has to keep. */
    ghost predicate Sees(snap: Snapshot, n: Node, now: int, adj: ConnFloor.Adjacency, obs: ConnFloor.Observation,
                         reach: set<Id>)
    {
      var sf := if n.sf <= 0 then cfg.defaultSf else n.sf;
      if cfg.connFloor > 0
      then ConnFloor.KeepGateway(snap, n.id, adj, reach)
           && ConnFloor.ShowsWeakestKept(snap.links, n.id, sf, now, maxAge, cfg.connFloor, reach, obs)
      else ConnFloor.ShowsWeakest(snap.links, n.id, sf, now, maxAge, obs)
    }

    method ObserveNode(snap: Snapshot, n: Node, now: int, adj: ConnFloor.Adjacency)
      returns (obs: ConnFloor.Observation, ghost reach: set<Id>)
      ensures Sees(snap, n, now, adj, obs, reach)
    {
      if cfg.connFloor > 0 {
        obs, reach := ConnFloor.ObserveConnFloor(snap, n.id, SfOf(n), now, maxAge, cfg.connFloor, adj);
      } else {
        obs := ConnFloor.Observe(snap.links, n.id, SfOf(n), now, maxAge);
        reach := {};
      }
    }

    function ReadingOf(n: Node, obs: ConnFloor.Observation, load: map<LinkLoad.Key, real>): Policy.Reading
    {
      var key := (n.id, obs.govPeer);
      Policy.Reading(obs.hasObs, obs.margin, obs.soft, n.mobile,
                     if obs.govPeer != NO_ID && key in load then load[key] else 0.0)
    }

    /** The policy's decision, except that a mobile node is trimmed only after enough
        over-band cycles in a row. */
    function Verdict(r: Policy.Reading, cur: i8, streak: int): Policy.Decision
    {
      var d := Policy.Decide(cfg.policy, r, cur);
      if r.mobile && d.action == Policy.Lower && streak < cfg.mobileLowerHold
      then Policy.Decision(Policy.Hold, 0, cur, d.margin) else d
    }

    /** Consecutive over-band cycles of a mobile node, restarted by a trim it allows. */
    function Streaks(r: Policy.Reading, id: Id, cur: i8, was: map<Id, int>): map<Id, int>
    {
      var streak := Counter(was, id) + 1;
      if r.mobile && Policy.Decide(cfg.policy, r, cur).action == Policy.Lower
      then was[id := if streak < cfg.mobileLowerHold then streak else 0] else was - {id}
    }

    /** The policy asks to trim a mobile node. */
    ghost predicate Asks(r: Policy.Reading, cur: i8)
    {
      r.mobile && Policy.Decide(cfg.policy, r, cur).action == Policy.Lower
    }

    ghost function Asked(cycles: seq<(Policy.Reading, i8)>): seq<bool>
    {
      seq(|cycles|, i requires 0 <= i < |cycles| => Asks(cycles[i].0, cycles[i].1))
    }

    /** The number of last cycles in a row in which a trim was asked for. */
    ghost function InARow(asked: seq<bool>): nat
    {
      if |asked| == 0 || !asked[|asked| - 1] then 0 else InARow(asked[..|asked| - 1]) + 1
    }

    /** The streak kept for a node through these cycles. */
    ghost function StreakAfter(cycles: seq<(Policy.Reading, i8)>, id: Id): map<Id, int>
    {
      if |cycles| == 0 then map[]
      else
        var c := cycles[|cycles| - 1];
        Streaks(c.0, id, c.1, StreakAfter(cycles[..|cycles| - 1], id))
    }

    ghost function Held(asked: seq<bool>): int
    {
      if |asked| == 0 then 0
      else
        var before := Held(asked[..|asked| - 1]);
        if asked[|asked| - 1] && before + 1 < cfg.mobileLowerHold then before + 1 else 0
    }

    lemma {:induction false} StreakHeld(cycles: seq<(Policy.Reading, i8)>, id: Id)
      ensures Counter(StreakAfter(cycles, id), id) == Held(Asked(cycles))
    {
      if |cycles| > 0 {
        var c, before := cycles[|cycles| - 1], cycles[..|cycles| - 1];
        StreakHeld(before, id);
        assert Asked(cycles)[..|before|] == Asked(before);
        StreakNext(c.0, id, c.1, StreakAfter(before, id));
      }
    }

    lemma StreakNext(r: Policy.Reading, id: Id, cur: i8, was: map<Id, int>)
      ensures Counter(Streaks(r, id, cur, was), id) ==
              if Asks(r, cur) && Counter(was, id) + 1 < cfg.mobileLowerHold then Counter(was, id) + 1 else 0
    {
    }

    lemma {:induction false} HeldCounts(asked: seq<bool>)
      ensures Held(asked) == if cfg.mobileLowerHold >= 1 then InARow(asked) % cfg.mobileLowerHold else 0
    {
      if |asked| > 0 {
        HeldCounts(asked[..|asked| - 1]);
        if cfg.mobileLowerHold >= 1 { ModNext(InARow(asked[..|asked| - 1]), cfg.mobileLowerHold); }
      }
    }

    lemma ModNext(a: nat, h: int)
      requires h >= 1
      ensures (a + 1) % h == if a % h + 1 < h then a % h + 1 else 0
    {
      var q := a / h;
      if a % h + 1 < h {
        Divides(a + 1, h, q, a % h + 1);
      } else {
        Divides(a + 1, h, q + 1, 0);
      }
    }

    lemma Divides(x: int, h: int, q: int, r: int)
      requires 0 <= r < h && x == q * h + r
      ensures x % h == r
    {
      var d := x / h - q;
      assert d * h == r - x % h;
      Spread(d, h);
    }

    lemma Spread(d: int, h: int)
      requires h >= 1
      ensures (d >= 1 ==> d * h >= h) && (d <= -1 ==> d * h <= -h)
    {
    }

    /** Through every run of cycles a mobile node is trimmed exactly at every
        mobileLowerHold-th cycle in a row that asks for it. */
    lemma TrimsEveryHold(cycles: seq<(Policy.Reading, i8)>, id: Id, r: Policy.Reading, cur: i8)
      requires r.mobile
      ensures Verdict(r, cur, Counter(StreakAfter(cycles, id), id) + 1).action == Policy.Lower <==>
                && Policy.Decide(cfg.policy, r, cur).action == Policy.Lower
                && (cfg.mobileLowerHold <= 1 || InARow(Asked(cycles + [(r, cur)])) % cfg.mobileLowerHold == 0)
    {
      var asked, next := Asked(cycles), Asked(cycles + [(r, cur)]);
      assert next[..|cycles|] == asked;
      StreakHeld(cycles, id);
      HeldCounts(asked);
      if cfg.mobileLowerHold >= 1 { ModNext(InARow(asked), cfg.mobileLowerHold); }
    }

    function Seed(n: Node): i8
    {
      if n.power != 0 then Policy.Wrap8(n.power) else cfg.seedPower
    }

    /** Observe and decide for one node; only the seed target and the mobile streak change. */
    method DecideFor(snap: Snapshot, n: Node, now: int, adj: ConnFloor.Adjacency, load: map<LinkLoad.Key, real>)
      returns (c: Cand, ghost obs: ConnFloor.Observation, ghost reach: set<Id>)
      requires Valid()
      modifies `targets, `overband
      ensures Valid() && Sees(snap, n, now, adj, obs, reach)
      ensures c == Cand(n.id, Verdict(ReadingOf(n, obs, load), c.cur, Counter(old(overband), n.id) + 1),
                        if n.id in old(targets) then old(targets)[n.id] else Seed(n))
      ensures targets == old(targets)[n.id := c.cur]
      ensures overband == Streaks(ReadingOf(n, obs, load), n.id, c.cur, old(overband))
    {
      var seen;
      seen, reach := ObserveNode(snap, n, now, adj);
      obs := seen;
      var r := ReadingOf(n, seen, load);
      if n.id !in targets {
        targets := targets[n.id := Seed(n)];
      }
      var cur := targets[n.id];
      assert targets == old(targets)[n.id := cur];
      var d := DecideHeld(n.id, r, cur);
      c := Cand(n.id, d, cur);
    }

    /** The decision, with the decrease of a mobile node held back for some cycles. */
    method DecideHeld(id: Id, r: Policy.Reading, cur: i8) returns (d: Policy.Decision)
      modifies `overband
      ensures d == Verdict(r, cur, Counter(old(overband), id) + 1)
      ensures overband == Streaks(r, id, cur, old(overband))
    {
      d := Policy.Decide(cfg.policy, r, cur);
      if r.mobile && d.action == Policy.Lower {
        var streak := Counter(overband, id) + 1;
        if streak < cfg.mobileLowerHold {
          d := Policy.Decision(Policy.Hold, 0, cur, d.margin);
        } else {
          streak := 0;
        }
        overband := overband[id := streak];
      } else {
        overband := overband - {id};
      }
    }

    /** Whatever the policy says of a managed node, acting on it is in order. */
    lemma VerdictSane(snap: Snapshot, i: nat, now: int, adj: ConnFloor.Adjacency, obs: ConnFloor.Observation,
                      reach: set<Id>, load: map<LinkLoad.Key, real>, cur: i8, streak: int)
      requires i < |snap.nodes| && Managed(snap, snap.nodes[i]) && Sees(snap, snap.nodes[i], now, adj, obs, reach)
      ensures var n := snap.nodes[i]; MayTune(snap, now, Cand(n.id, Verdict(ReadingOf(n, obs, load), cur, streak), cur))
    {
      ConnFloor.HeardMeaning(snap.links, snap.nodes[i].id, now, maxAge);
    }

    /** The nodes a cycle decides about, in snapshot order. */
    function ManagedNodes(snap: Snapshot, n: nat): seq<Node>
      requires n <= |snap.nodes|
    {
      if n == 0 then []
      else ManagedNodes(snap, n - 1) + if Managed(snap, snap.nodes[n - 1]) then [snap.nodes[n - 1]] else []
    }

    ghost predicate AmongFirst(snap: Snapshot, n: nat, x: Id)
      requires n <= |snap.nodes|
    {
      exists j :: 0 <= j < n && snap.nodes[j].id == x
    }

    lemma {:induction false} ManagedDistinct(snap: Snapshot, n: nat)
      requires n <= |snap.nodes| && SnapshotOk(snap)
      ensures forall i :: 0 <= i < |ManagedNodes(snap, n)| ==> AmongFirst(snap, n, ManagedNodes(snap, n)[i].id)
      ensures forall i, k :: 0 <= i < k < |ManagedNodes(snap, n)| ==>
                ManagedNodes(snap, n)[i].id != ManagedNodes(snap, n)[k].id
    {
      if n > 0 {
        ManagedDistinct(snap, n - 1);
        var before, nodes := ManagedNodes(snap, n - 1), ManagedNodes(snap, n);
        forall i | 0 <= i < |nodes|
          ensures if i < |before| then nodes[i] == before[i] && AmongFirst(snap, n - 1, nodes[i].id)
                  else nodes[i] == snap.nodes[n - 1]
          ensures AmongFirst(snap, n, nodes[i].id)
        {
          if i < |before| {
            assert AmongFirst(snap, n - 1, before[i].id);
          }
        }
      }
    }

    /** There is a candidate for every node other than the gateway that is under no access
        list or allowed by it, and for no other; they stand in snapshot order. */
    ghost predicate CoversManaged(snap: Snapshot, cands: seq<Cand>)
    {
      && (forall j :: 0 <= j < |snap.nodes| ==>
            var n := snap.nodes[j];
            IsCand(cands, n.id) <==>
              !n.isGateway && n.id != snap.gateway && (n.acl == "" || n.acl == "allowed"))
      && (forall c :: c in cands ==> AmongFirst(snap, |snap.nodes|, c.id))
      && (forall i, k :: 0 <= i < k < |cands| ==> Before(snap, cands[i].id, cands[k].id))
    }

    ghost predicate Before(snap: Snapshot, x: Id, y: Id)
    {
      forall a, b ::
               0 <= a < |snap.nodes| && 0 <= b < |snap.nodes| && snap.nodes[a].id == x && snap.nodes[b].id == y ==>
                       a < b
    }

    ghost predicate IsCand(cands: seq<Cand>, x: Id)
    {
      exists i :: 0 <= i < |cands| && cands[i].id == x
    }

    ghost predicate Listed(nodes: seq<Node>, x: Id)
    {
      exists i :: 0 <= i < |nodes| && nodes[i].id == x
    }

    lemma {:induction false} ManagedExactly(snap: Snapshot, n: nat, j: nat)
      requires n <= |snap.nodes| && SnapshotOk(snap) && j < |snap.nodes|
      ensures var x := snap.nodes[j];
              Listed(ManagedNodes(snap, n), x.id) <==>
                j < n && !x.isGateway && x.id != snap.gateway && (x.acl == "" || x.acl == "allowed")
    {
      if n > 0 {
        ManagedExactly(snap, n - 1, j);
        var before, nodes := ManagedNodes(snap, n - 1), ManagedNodes(snap, n);
        assert forall i :: 0 <= i < |before| ==> nodes[i] == before[i];
        if Managed(snap, snap.nodes[n - 1]) { assert nodes[|before|] == snap.nodes[n - 1]; }
      }
    }

    lemma {:induction false} ManagedInOrder(snap: Snapshot, n: nat, i: nat, k: nat, a: nat, b: nat)
      requires n <= |snap.nodes| && SnapshotOk(snap) && i < k < |ManagedNodes(snap, n)|
      requires a < |snap.nodes| && b < |snap.nodes|
      requires snap.nodes[a].id == ManagedNodes(snap, n)[i].id && snap.nodes[b].id == ManagedNodes(snap, n)[k].id
      ensures a < b < n
    {
      if k < |ManagedNodes(snap, n - 1)| {
        ManagedInOrder(snap, n - 1, i, k, a, b);
      } else {
        ManagedDistinct(snap, n - 1);
        assert AmongFirst(snap, n - 1, ManagedNodes(snap, n - 1)[i].id);
      }
    }

    /** What a cycle looks at: the graph without directions where the floor needs it, and
        the routed loads where critical links are spared. */
    ghost predicate Surveyed(snap: Snapshot, now: int, survey: Survey)
    {
      && (cfg.connFloor > 0 ==> ConnFloor.IsAdjacency(snap.links, now, maxAge, survey.adj))
      && (if cfg.policy.criticality then LinkLoad.IsLoad(snap.links, now, maxAge, survey.load)
          else survey.load == map[])
    }

    /** c is the policy's decision on what is seen of n, on its target before the cycle or
        else the power it reports or the default; but a mobile node's decrease is held back
        until it is asked for mobileLowerHold cycles in a row, which are counted. */
    ghost predicate Decided(snap: Snapshot, now: int, before: Memory, streaks: map<Id, int>, survey: Survey, n: Node,
                            c: Cand, sight: Sight)
    {
      var obs, key := sight.obs, (n.id, sight.obs.govPeer);
      var r := Policy.Reading(obs.hasObs, obs.margin, obs.soft, n.mobile,
                              if obs.govPeer != NO_ID && key in survey.load then survey.load[key] else 0.0);
      var d := Policy.Decide(cfg.policy, r, c.cur);
      var streak := (if n.id in before.streaks then before.streaks[n.id] else 0) + 1;
      var trims := n.mobile && d.action == Policy.Lower;
      && Sees(snap, n, now, survey.adj, obs, sight.reach) && c.id == n.id
      && c.cur == (if n.id in before.targets then before.targets[n.id]
                   else if n.power != 0 then Policy.Wrap8(n.power) else cfg.seedPower)
      && c.d == (if trims && streak < cfg.mobileLowerHold then Policy.Decision(Policy.Hold, 0, c.cur, d.margin) else d)
      && Counter(streaks, n.id) == (if trims && streak < cfg.mobileLowerHold then streak else 0)
    }

    /** The candidates of the first n nodes are the verdicts on them, in order. */
    ghost predicate AllDecided(snap: Snapshot, now: int, before: Memory, streaks: map<Id, int>, survey: Survey,
                               cands: seq<Cand>, n: nat)
      requires n <= |snap.nodes|
    {
      var nodes := ManagedNodes(snap, n);
      |cands| == |nodes| == |survey.sights|
      && forall k :: 0 <= k < |nodes| ==>
           Decided(snap, now, before, streaks, survey, nodes[k], cands[k], survey.sights[k])
    }

    lemma AllCovered(snap: Snapshot, now: int, before: Memory, streaks: map<Id, int>, survey: Survey, cands: seq<Cand>)
      requires SnapshotOk(snap) && AllDecided(snap, now, before, streaks, survey, cands, |snap.nodes|)
      ensures DistinctCands(cands) && CoversManaged(snap, cands)
    {
      var nodes := ManagedNodes(snap, |snap.nodes|);
      ManagedDistinct(snap, |snap.nodes|);
      assert forall k :: 0 <= k < |nodes| ==>
          Decided(snap, now, before, streaks, survey, nodes[k], cands[k], survey.sights[k]);
      assert forall k :: 0 <= k < |nodes| ==> cands[k].id == nodes[k].id;
      forall j | 0 <= j < |snap.nodes|
        ensures var n := snap.nodes[j];
                IsCand(cands, n.id) <==>
                  !n.isGateway && n.id != snap.gateway && (n.acl == "" || n.acl == "allowed")
      {
        ManagedExactly(snap, |snap.nodes|, j);
        assert IsCand(cands, snap.nodes[j].id) <==> Listed(nodes, snap.nodes[j].id);
      }
      forall i, k | 0 <= i < k < |cands|
        ensures Before(snap, cands[i].id, cands[k].id)
      {
        forall a, b | 0 <= a < |snap.nodes| && 0 <= b < |snap.nodes|
                      && snap.nodes[a].id == cands[i].id && snap.nodes[b].id == cands[k].id
          ensures a < b
        {
          ManagedInOrder(snap, |snap.nodes|, i, k, a, b);
        }
      }
    }

    /** Nodes not yet looked at are remembered as before. */
    ghost predicate Unvisited(snap: Snapshot, n: nat, before: Memory, after: Memory)
      requires n <= |snap.nodes|
    {
      forall x {:trigger AmongFirst(snap, n, x)} :: !AmongFirst(snap, n, x) ==> SameMemory(before, after, x)
    }

    ghost predicate SameMemory(before: Memory, after: Memory, x: Id)
    {
      && (x in before.targets <==> x in after.targets)
      && (x in before.targets ==> before.targets[x] == after.targets[x])
      && Counter(before.streaks, x) == Counter(after.streaks, x)
    }

    /** Deciding for node i next: the earlier verdicts stand, and it has its own. */
    lemma DecidedNext(snap: Snapshot, i: nat, now: int, before: Memory, was: Memory, after: Memory,
                      survey: Survey, cands: seq<Cand>, c: Cand, sight: Sight)
      requires SnapshotOk(snap) && i < |snap.nodes| && Managed(snap, snap.nodes[i])
      requires AllDecided(snap, now, before, was.streaks, survey, cands, i) && Unvisited(snap, i, before, was)
      requires Decided(snap, now, was, after.streaks, survey, snap.nodes[i], c, sight)
      requires forall x :: x != snap.nodes[i].id ==> SameMemory(was, after, x)
      ensures AllDecided(snap, now, before, after.streaks, survey.(sights := survey.sights + [sight]), cands + [c],
                         i + 1)
      ensures Unvisited(snap, i + 1, before, after)
    {
      var n, nodes := snap.nodes[i], ManagedNodes(snap, i);
      var grown := survey.(sights := survey.sights + [sight]);
      ManagedDistinct(snap, i);
      assert ManagedNodes(snap, i + 1) == nodes + [n];
      assert !AmongFirst(snap, i, n.id);
      assert SameMemory(before, was, n.id);
      assert Decided(snap, now, before, after.streaks, grown, n, c, sight);
      forall k | 0 <= k < |nodes|
        ensures Decided(snap, now, before, after.streaks, grown, nodes[k], cands[k], survey.sights[k])
      {
        assert Decided(snap, now, before, was.streaks, survey, nodes[k], cands[k], survey.sights[k]);
        assert AmongFirst(snap, i, nodes[k].id);
        assert SameMemory(was, after, nodes[k].id);
      }
      VisitedOn(snap, i, before, was, after);
    }

    lemma VisitedOn(snap: Snapshot, i: nat, before: Memory, was: Memory, after: Memory)
      requires i < |snap.nodes| && Unvisited(snap, i, before, was)
      requires forall x :: x != snap.nodes[i].id ==> SameMemory(was, after, x)
      ensures Unvisited(snap, i + 1, before, after)
    {
      forall x | !AmongFirst(snap, i + 1, x)
        ensures SameMemory(before, after, x)
      {
        assert !AmongFirst(snap, i, x);
        assert snap.nodes[i].id != x;
        assert SameMemory(before, was, x) && SameMemory(was, after, x);
      }
    }

    lemma Skipped(snap: Snapshot, i: nat, before: Memory, was: Memory)
      requires i < |snap.nodes| && Unvisited(snap, i, before, was)
      ensures Unvisited(snap, i + 1, before, was)
    {
      forall x | !AmongFirst(snap, i + 1, x)
        ensures SameMemory(before, was, x)
      {
        assert !AmongFirst(snap, i, x);
      }
    }

    /** The first n nodes have been decided about. */
    ghost predicate Deciding(snap: Snapshot, n: nat, now: int, before: Memory, memory: Memory, survey: Survey,
                             cands: seq<Cand>)
      requires n <= |snap.nodes|
    {
      && AllDecided(snap, now, before, memory.streaks, survey, cands, n) && Unvisited(snap, n, before, memory)
      && Seeded(before.targets, memory.targets, cands) && MayTuneAll(snap, now, cands)
    }

    lemma DecidingNext(snap: Snapshot, i: nat, now: int, before: Memory, was: Memory, after: Memory, survey: Survey,
                       cands: seq<Cand>, c: Cand, sight: Sight)
      requires SnapshotOk(snap) && i < |snap.nodes| && Managed(snap, snap.nodes[i])
      requires Deciding(snap, i, now, before, was, survey, cands)
      requires Decided(snap, now, was, after.streaks, survey, snap.nodes[i], c, sight) && MayTune(snap, now, c)
      requires forall x :: x != snap.nodes[i].id ==> SameMemory(was, after, x)
      requires after.targets == was.targets[c.id := c.cur] && (c.id in was.targets ==> was.targets[c.id] == c.cur)
      ensures Deciding(snap, i + 1, now, before, after, survey.(sights := survey.sights + [sight]), cands + [c])
    {
      DecidedNext(snap, i, now, before, was, after, survey, cands, c, sight);
      SeededNext(before.targets, was.targets, cands, c);
    }

    lemma DecidingSkip(snap: Snapshot, i: nat, now: int, before: Memory, was: Memory, survey: Survey,
                       cands: seq<Cand>)
      requires i < |snap.nodes| && !Managed(snap, snap.nodes[i])
      requires Deciding(snap, i, now, before, was, survey, cands)
      ensures Deciding(snap, i + 1, now, before, was, survey, cands)
    {
      Skipped(snap, i, before, was);
      assert ManagedNodes(snap, i + 1) == ManagedNodes(snap, i);
    }

    /** Every candidate has its target, and the other nodes keep theirs. */
    ghost predicate Seeded(was: map<Id, i8>, targets: map<Id, i8>, cands: seq<Cand>)
    {
      && (forall c :: c in cands ==> c.id in targets && targets[c.id] == c.cur)
      && (forall n :: n in was ==> n in targets && targets[n] == was[n])
      && (forall n :: n in targets ==> n in was || exists c :: c in cands && c.id == n)
    }

    lemma SeededNext(was: map<Id, i8>, mid: map<Id, i8>, cands: seq<Cand>, c: Cand)
      requires Seeded(was, mid, cands) && (c.id in mid ==> mid[c.id] == c.cur)
      ensures Seeded(was, mid[c.id := c.cur], cands + [c])
    {
      assert forall d :: d in cands + [c] <==> d in cands || d == c;
    }

    /** What the controller remembers of its nodes between decisions. */
    ghost function Remembered(): Memory
      reads `targets, `overband
    {
      Memory(targets, overband)
    }

    /** The decisions of this cycle: one per managed node, in order, each the verdict on
        what is seen of it. */
    method DecideAll(snap: Snapshot, now: int) returns (cands: seq<Cand>, ghost survey: Survey)
      requires Valid() && SnapshotOk(snap)
      modifies `targets, `overband
      ensures Valid() && Seeded(old(targets), targets, cands)
      ensures Plan(snap, now, old(Remembered()), overband, survey, cands)
    {
      var adj, load := Look(snap, now);
      ghost var before := Remembered();
      cands, survey := DecideEach(snap, now, adj, load);
      AllCovered(snap, now, before, overband, survey, cands);
    }

    method DecideEach(snap: Snapshot, now: int, adj: ConnFloor.Adjacency, load: map<LinkLoad.Key, real>)
      returns (cands: seq<Cand>, ghost survey: Survey)
      requires Valid() && SnapshotOk(snap)
      modifies `targets, `overband
      ensures Valid() && survey.adj == adj && survey.load == load
      ensures Deciding(snap, |snap.nodes|, now, old(Remembered()), Remembered(), survey, cands)
    {
      cands, survey := [], Survey(adj, load, []);
      ghost var before := Remembered();
      var i := 0;
      while i < |snap.nodes|
        invariant 0 <= i <= |snap.nodes| && Valid()
        invariant survey.adj == adj && survey.load == load
        invariant Deciding(snap, i, now, before, Remembered(), survey, cands)
      {
        cands, survey := DecideOne(snap, i, now, adj, load, before, survey, cands);
        i := i + 1;
      }
    }

    /** The candidates are the verdicts on all managed nodes, and acting on them is in order. */
    ghost predicate Plan(snap: Snapshot, now: int, before: Memory, streaks: map<Id, int>, survey: Survey,
                         cands: seq<Cand>)
    {
      && DistinctCands(cands) && CoversManaged(snap, cands) && Surveyed(snap, now, survey)
      && AllDecided(snap, now, before, streaks, survey, cands, |snap.nodes|) && MayTuneAll(snap, now, cands)
    }

    /** The turn of node i: a candidate more when it is managed. */
    method DecideOne(snap: Snapshot, i: nat, now: int, adj: ConnFloor.Adjacency, load: map<LinkLoad.Key, real>,
                     ghost before: Memory, ghost survey0: Survey, cands0: seq<Cand>)
      returns (cands: seq<Cand>, ghost survey: Survey)
      requires Valid() && SnapshotOk(snap) && i < |snap.nodes|
      requires survey0.adj == adj && survey0.load == load
      requires Deciding(snap, i, now, before, Remembered(), survey0, cands0)
      modifies `targets, `overband
      ensures Valid() && survey.adj == adj && survey.load == load
      ensures Deciding(snap, i + 1, now, before, Remembered(), survey, cands)
    {
      cands, survey := cands0, survey0;
      if Managed(snap, snap.nodes[i]) {
        ghost var was := Remembered();
        var c;
        ghost var sight;
        c, sight := DecideNext(snap, i, now, adj, load, survey0);
        DecidingNext(snap, i, now, before, was, Remembered(), survey0, cands0, c, sight);
        survey := survey0.(sights := survey0.sights + [sight]);
        cands := cands0 + [c];
      } else {
        DecidingSkip(snap, i, now, before, Remembered(), survey0, cands0);
      }
    }

    ghost predicate MayTuneAll(snap: Snapshot, now: int, cands: seq<Cand>)
    {
      forall c :: c in cands ==> MayTune(snap, now, c)
    }

    method Look(snap: Snapshot, now: int) returns (adj: ConnFloor.Adjacency, load: map<LinkLoad.Key, real>)
      requires SnapshotOk(snap)
      ensures Surveyed(snap, now, Survey(adj, load, []))
    {
      adj, load := map[], map[];
      if cfg.connFloor > 0 {
        adj := ConnFloor.AdjUndirected(snap.links, now, maxAge);
      }
      if cfg.policy.criticality {
        var peak;
        ghost var graph, raw, trees, pairs;
        load, peak, graph, raw, trees, pairs := LinkLoad.Loads(snap.links, now, maxAge);
      }
    }

    method DecideNext(snap: Snapshot, i: nat, now: int, adj: ConnFloor.Adjacency, load: map<LinkLoad.Key, real>,
                      ghost survey: Survey) returns (c: Cand, ghost sight: Sight)
      requires Valid() && i < |snap.nodes| && Managed(snap, snap.nodes[i])
      requires survey.adj == adj && survey.load == load
      modifies `targets, `overband
      ensures Valid() && MayTune(snap, now, c)
      ensures targets == old(targets)[c.id := c.cur] && (c.id in old(targets) ==> old(targets)[c.id] == c.cur)
      ensures Decided(snap, now, old(Remembered()), overband, survey, snap.nodes[i], c, sight)
      ensures forall x :: x != snap.nodes[i].id ==> SameMemory(old(Remembered()), Remembered(), x)
    {
      ghost var was := overband;
      ghost var obs, reach;
      c, obs, reach := DecideFor(snap, snap.nodes[i], now, adj, load);
      sight := Sight(obs, reach);
      VerdictSane(snap, i, now, adj, obs, reach, load, c.cur, Counter(was, c.id) + 1);
    }

    /** A decision for a managed node that may be acted on. */
    ghost predicate MayTune(snap: Snapshot, now: int, c: Cand)
    {
      && (exists j :: 0 <= j < |snap.nodes| && snap.nodes[j].id == c.id && Managed(snap, snap.nodes[j]))
      && (c.d.action != Policy.Skip ==> ConnFloor.IsHeard(snap.links, c.id, now, maxAge))
      && (Changes(c.d) && cfg.policy.powerMin <= cfg.policy.powerMax ==>
          cfg.policy.powerMin <= c.d.newTarget <= cfg.policy.powerMax)
      && (c.d.action == Policy.Lower ==> c.d.newTarget < c.cur)
      && (c.d.action == Policy.Raise ==> c.d.newTarget > c.cur)
    }

    predicate Serialised() { cfg.settle > 0 }

    predicate WindowOpen(now: int)
      reads `lastMutation
    {
      lastMutation.None? || now - lastMutation.value >= cfg.settle
    }

    /** Send one change; only if it went out does it take effect. */
    method ApplyChange(c: Cand, now: int)
      requires Valid() && Changes(c.d) && c.id !in pending
      requires Serialised() ==> WindowOpen(now)
      modifies `attempts, `targets, `pending, `miss, `lastSent, `lastMutation, `log
      ensures Valid()
      ensures var sent := Live() && radio(old(attempts));
              && log == old(log) + (if sent then [ChangeOf(c, now)] else [])
              && targets == (if sent then old(targets)[c.id := c.d.newTarget] else old(targets))
              && pending == (if sent && c.d.action == Policy.Lower then old(pending)[c.id := c.d.newTarget]
                             else old(pending))
              && miss == (if sent && c.d.action == Policy.Lower then old(miss)[c.id := 0] else old(miss))
              && lastSent == (if sent then old(lastSent)[c.id := now] else old(lastSent))
              && lastMutation == (if Serialised() && (sent || !Live()) then Some(now) else old(lastMutation))
    {
      if Live() {
        LowerBooks(log, cfg.settle, targets, pending, lastSent, lastMutation, c.id, c.d.newTarget, now);
        RaiseBooks(log, cfg.settle, targets, pending, lastSent, lastMutation, c.id, c.d.newTarget, now);
        var ok := TrySend();
        if ok {
          log := log + [ChangeOf(c, now)];
          lastSent := lastSent[c.id := now];
          targets := targets[c.id := c.d.newTarget];
          if c.d.action == Policy.Lower {
            pending := pending[c.id := c.d.newTarget];
            miss := miss[c.id := 0];
          }
          if Serialised() { lastMutation := Some(now); }
        }
      } else if Serialised() {
        DryBooks(log, cfg.settle, targets, pending, lastSent, lastMutation, now);
        lastMutation := Some(now);
      }
    }

    predicate BeatDue(id: Id, now: int)
      reads `apply, `lastSent
    {
      Live() && heartbeat > 0 && id in lastSent && now - lastSent[id] >= heartbeat
    }

    /** Re-assert the power of a held node that has not been spoken to for a while. */
    method Beat(c: Cand, now: int)
      requires Valid() && c.id !in pending && c.id in targets && targets[c.id] == c.cur
      modifies `attempts, `lastSent, `log
      ensures Valid()
      ensures log == old(log) + if old(BeatDue(c.id, now)) && radio(old(attempts))
                                then [Power(c.id, c.cur, now, Heartbeat)] else []
      ensures lastSent == if log == old(log) then old(lastSent) else old(lastSent)[c.id := now]
    {
      if BeatDue(c.id, now) {
        BeatBooks(log, cfg.settle, targets, pending, lastSent, lastMutation, c.id, now);
        var ok := TrySend();
        if ok {
          log := log + [Power(c.id, c.cur, now, Heartbeat)];
          lastSent := lastSent[c.id := now];
        }
      }
    }

    /** The candidates from i on still describe their nodes' current targets, and none
        that acts has a decrease pending. */
    ghost predicate StillDue(cands: seq<Cand>, i: nat)
      reads this
    {
      forall j :: i <= j < |cands| ==>
        && cands[j].id in targets && targets[cands[j].id] == cands[j].cur
        && (cands[j].d.action != Policy.Skip ==> cands[j].id !in pending)
    }

    // ---------------------------------------------------- what turns do

    /** n was sent a command, and that is at least the heartbeat period ago. */
    ghost predicate Quiet(sent: map<Id, int>, n: Id, now: int)
    {
      heartbeat > 0 && n in sent && now - sent[n] >= heartbeat
    }

    /** e is what a candidate's turn sends: its raise or its decrease, when changes are not
        serialised or it was picked, or a heartbeat at the power it holds. */
    ghost predicate Brings(c: Cand, picked: bool, quiet: bool, e: Event, now: int)
    {
      || (c.d.action == Policy.Raise && (cfg.settle <= 0 || picked) && e == Power(c.id, c.d.newTarget, now, Raised))
      || (c.d.action == Policy.Lower && (cfg.settle <= 0 || picked) && e == Power(c.id, c.d.newTarget, now, Lowered))
      || (c.d.action == Policy.Hold && quiet && e == Power(c.id, c.cur, now, Heartbeat))
    }

    /** One of the first n turns brings e. */
    ghost predicate Brought(cands: seq<Cand>, n: nat, pick: int, sent: map<Id, int>, e: Event, now: int)
      requires n <= |cands|
    {
      exists j: nat {:trigger cands[j]} ::
        j < n && Brings(cands[j], j == pick, Quiet(sent, cands[j].id, now), e, now)
    }

    ghost predicate OncePerNode(added: seq<Event>)
    {
      forall k, m :: 0 <= k < m < |added| ==> added[k].node != added[m].node
    }

    /** The first n turns sent nothing but what they bring, all of it when commands get
        through, nothing in a dry-run, and no node was addressed twice. */
    ghost predicate Served(cands: seq<Cand>, n: nat, pick: int, sent: map<Id, int>, added: seq<Event>, live: bool,
                           sends: bool, now: int)
      requires n <= |cands|
    {
      && (added != [] ==> live) && OncePerNode(added)
      && (forall e :: e in added ==> Brought(cands, n, pick, sent, e, now))
      && (sends ==> forall e {:trigger Brought(cands, n, pick, sent, e, now)} ::
            Brought(cands, n, pick, sent, e, now) ==> e in added)
    }

    /** What one turn adds to the history. */
    function TurnEvents(c: Cand, picked: bool, beat: bool, ok: bool, now: int): seq<Event>
    {
      if !ok then []
      else if Changes(c.d) then (if Serialised() && !picked then [] else [ChangeOf(c, now)])
      else if c.d.action == Policy.Hold && beat then [Power(c.id, c.cur, now, Heartbeat)] else []
    }

    lemma TurnBrings(c: Cand, picked: bool, quiet: bool, ok: bool, now: int)
      ensures |TurnEvents(c, picked, quiet, ok, now)| <= 1
      ensures forall e :: e in TurnEvents(c, picked, quiet, ok, now) <==> ok && Brings(c, picked, quiet, e, now)
    {
    }

    lemma BroughtNext(cands: seq<Cand>, i: nat, pick: int, sent: map<Id, int>, e: Event, now: int)
      requires i < |cands|
      ensures Brought(cands, i + 1, pick, sent, e, now) <==>
                Brought(cands, i, pick, sent, e, now)
                || Brings(cands[i], i == pick, Quiet(sent, cands[i].id, now), e, now)
    {
      if Brings(cands[i], i == pick, Quiet(sent, cands[i].id, now), e, now) {
        assert Brought(cands, i + 1, pick, sent, e, now);
      }
    }

    lemma ServedNext(cands: seq<Cand>, i: nat, pick: int, sent: map<Id, int>, added: seq<Event>, beat: bool, ok: bool,
                     live: bool, sends: bool, now: int)
      requires i < |cands| && DistinctCands(cands) && Served(cands, i, pick, sent, added, live, sends, now)
      requires (ok ==> live) && (sends ==> ok) && (live ==> beat == Quiet(sent, cands[i].id, now))
      ensures Served(cands, i + 1, pick, sent, added + TurnEvents(cands[i], i == pick, beat, ok, now), live, sends, now)
    {
      var more := TurnEvents(cands[i], i == pick, beat, ok, now);
      TurnBrings(cands[i], i == pick, beat, ok, now);
      forall e | e in added + more
        ensures Brought(cands, i + 1, pick, sent, e, now)
      {
        BroughtNext(cands, i, pick, sent, e, now);
        if e in added { assert Brought(cands, i, pick, sent, e, now); }
      }
      if sends {
        forall e | Brought(cands, i + 1, pick, sent, e, now)
          ensures e in added + more
        {
          BroughtNext(cands, i, pick, sent, e, now);
        }
      }
      forall k, m | 0 <= k < m < |added + more|
        ensures (added + more)[k].node != (added + more)[m].node
      {
        var e := (added + more)[k];
        assert k < |added| && e == added[k] && Brought(cands, i, pick, sent, e, now);
        if m >= |added| { assert (added + more)[m] in more; }
      }
    }

    /** The last command to n among these was a change to this power. */
    ghost predicate ChangedIn(added: seq<Event>, n: Id, dbm: i8)
    {
      exists e :: e in added && IsChange(e) && e.node == n && e.dbm == dbm
    }

    ghost predicate LoweredIn(added: seq<Event>, n: Id)
    {
      exists e :: e in added && e.Power? && e.kind == Lowered && e.node == n
    }

    /** A target moves only by a change sent, and a decrease starts to wait with no miss. */
    ghost predicate PostedAt(was: Ledger, ledger: Ledger, added: seq<Event>, n: Id)
    {
      && (n in was.targets <==> n in ledger.targets)
      && (n in was.targets ==>
            ledger.targets[n] == was.targets[n] || ChangedIn(added, n, ledger.targets[n]))
      && (n in ledger.pending <==> n in was.pending || LoweredIn(added, n))
      && Counter(ledger.miss, n) == if LoweredIn(added, n) then 0 else Counter(was.miss, n)
    }

    ghost predicate Posted(was: Ledger, ledger: Ledger, added: seq<Event>)
    {
      forall n :: PostedAt(was, ledger, added, n)
    }

    /** The ledger after one turn that sent these events. */
    ghost predicate TurnPosts(was: Ledger, ledger: Ledger, c: Cand, more: seq<Event>)
    {
      if more == [] || !Changes(c.d) then ledger == was
      else ledger == Ledger(was.targets[c.id := c.d.newTarget],
                            if c.d.action == Policy.Lower then was.pending[c.id := c.d.newTarget] else was.pending,
                            if c.d.action == Policy.Lower then was.miss[c.id := 0] else was.miss)
    }

    lemma PostedNext(was: Ledger, mid: Ledger, ledger: Ledger, added: seq<Event>, c: Cand, picked: bool, beat: bool,
                     ok: bool, now: int)
      requires Posted(was, mid, added) && c.id in mid.targets
      requires TurnPosts(mid, ledger, c, TurnEvents(c, picked, beat, ok, now))
      ensures Posted(was, ledger, added + TurnEvents(c, picked, beat, ok, now))
    {
      var more := TurnEvents(c, picked, beat, ok, now);
      forall n
        ensures PostedAt(was, ledger, added + more, n)
      {
        assert PostedAt(was, mid, added, n);
        PostedOne(was, mid, ledger, added, c, more, n, now);
      }
    }

    lemma PostedOne(was: Ledger, mid: Ledger, ledger: Ledger, added: seq<Event>, c: Cand, more: seq<Event>, n: Id,
                    now: int)
      requires PostedAt(was, mid, added, n) && c.id in mid.targets && TurnPosts(mid, ledger, c, more)
      requires more != [] ==> more == [if Changes(c.d) then ChangeOf(c, now) else Power(c.id, c.cur, now, Heartbeat)]
      ensures PostedAt(was, ledger, added + more, n)
    {
      if more == [] {
        assert added + more == added;
      } else {
        var e := more[0];
        assert e in added + more;
        assert forall f :: f in added + more <==> f in added || f == e;
      }
    }

    ghost predicate AnyChange(added: seq<Event>)
    {
      exists e :: e in added && IsChange(e)
    }

    /** The window starts anew at a change sent, or in a dry-run at one that would have been. */
    ghost predicate Marked(cands: seq<Cand>, n: nat, pick: int, added: seq<Event>, live: bool, was: Option<int>,
                           mark: Option<int>, now: int)
      requires n <= |cands|
    {
      mark == if cfg.settle > 0 && (AnyChange(added) || (!live && 0 <= pick < n && Changes(cands[pick].d)))
              then Some(now) else was
    }

    lemma MarkedNext(cands: seq<Cand>, i: nat, pick: int, added: seq<Event>, beat: bool, ok: bool, live: bool,
                     was: Option<int>, mid: Option<int>, mark: Option<int>, now: int)
      requires i < |cands| && Marked(cands, i, pick, added, live, was, mid, now) && (ok ==> live)
      requires mark == if cfg.settle > 0 && i == pick && Changes(cands[i].d) && (ok || !live) then Some(now) else mid
      ensures Marked(cands, i + 1, pick, added + TurnEvents(cands[i], i == pick, beat, ok, now), live, was, mark, now)
    {
      var more := TurnEvents(cands[i], i == pick, beat, ok, now);
      if more == [] {
        assert added + more == added;
      } else {
        assert more[0] in added + more;
        assert forall f :: f in added + more <==> f in added || f == more[0];
      }
    }

    ghost function Posts(): Ledger
      reads `targets, `pending, `miss
    {
      Ledger(targets, pending, miss)
    }

    /** One candidate's turn: change, defer, heartbeat or nothing. */
    method Turn(cands: seq<Cand>, i: nat, pick: int, ghost added: seq<Event>, now: int) returns (d: Policy.Decision)
      requires Valid() && i < |cands| && DistinctCands(cands) && StillDue(cands, i)
      requires Serialised() && i == pick ==> WindowOpen(now)
      requires added == TurnEvents(cands[i], i == pick, BeatDue(cands[i].id, now), Live() && radio(attempts), now)
      modifies `attempts, `targets, `pending, `miss, `lastSent, `lastMutation, `log
      ensures Valid() && StillDue(cands, i + 1)
      ensures log == old(log) + added
      ensures TurnPosts(old(Posts()), Posts(), cands[i], added)
      ensures lastSent == if added == [] then old(lastSent) else old(lastSent)[cands[i].id := now]
      ensures d == Outcome(cands[i], i == pick)
      ensures lastMutation == if Serialised() && i == pick && Changes(cands[i].d)
                                 && ((Live() && radio(old(attempts))) || !Live()) then Some(now) else old(lastMutation)
    {
      var c := cands[i];
      d := c.d;
      if Changes(d) && Serialised() && i != pick {
        d := Policy.Decision(Policy.Hold, 0, c.cur, d.margin);
      } else if Changes(d) {
        ApplyChange(c, now);
      } else if d.action == Policy.Hold {
        Beat(c, now);
      }
    }

    /** First half of a cycle: settle pending decreases, then take every decision. */
    method Prepare(snap: Snapshot, now: int)
      returns (cands: seq<Cand>, ghost survey: Survey, ghost added: seq<Event>)
      requires Valid() && SnapshotOk(snap)
      modifies `attempts, `targets, `pending, `miss, `lastSent, `overband, `log
      ensures Valid() && StillDue(cands, 0)
      ensures Plan(snap, now, old(Remembered()), overband, survey, cands)
      ensures Seeded(old(targets), targets, cands)
      ensures log == old(log) + added
      ensures Resolving(snap.links, old(Waiting()), Waiting(), {}, added, Live(), AlwaysSends(), now)
    {
      ResolvePending(snap.links, now);
      added := log[|old(log)|..];
      ghost var desk := Waiting();
      cands, survey := DecideAll(snap, now);
      NoneWaiting(snap, cands, old(Waiting()), desk, added, Live(), AlwaysSends(), now);
    }

    /** A candidate that acts is heard, so it is not waiting any more. */
    lemma NoneWaiting(snap: Snapshot, cands: seq<Cand>, was: Desk, desk: Desk, added: seq<Event>, live: bool,
                      sends: bool, now: int)
      requires Resolving(snap.links, was, desk, {}, added, live, sends, now)
      requires MayTuneAll(snap, now, cands)
      ensures forall j :: 0 <= j < |cands| && cands[j].d.action != Policy.Skip ==> cands[j].id !in desk.pending
    {
      forall j | 0 <= j < |cands| && cands[j].d.action != Policy.Skip
        ensures cands[j].id !in desk.pending
      {
        var n := cands[j].id;
        assert cands[j] in cands && MayTune(snap, now, cands[j]);
        if n !in was.pending { assert LeftAlone(was, desk, n); }
        assert Resolved(snap.links, was, desk, added, sends, n, now);
      }
    }

    /** The decision reported for a candidate: deferred unless it is its turn. */
    function Outcome(c: Cand, picked: bool): Policy.Decision
    {
      if Changes(c.d) && Serialised() && !picked then Policy.Decision(Policy.Hold, 0, c.cur, c.d.margin) else c.d
    }

    /** The first n candidates have had their turns. */
    ghost predicate CycleDone(cands: seq<Cand>, n: nat, pick: int, sent: map<Id, int>, added: seq<Event>,
                              was: Ledger, ledger: Ledger, mark0: Option<int>, mark: Option<int>, live: bool,
                              sends: bool, now: int)
      requires n <= |cands|
    {
      && Served(cands, n, pick, sent, added, live, sends, now) && Posted(was, ledger, added)
      && Marked(cands, n, pick, added, live, mark0, mark, now)
    }

    lemma DoneNext(cands: seq<Cand>, i: nat, pick: int, sent: map<Id, int>, added: seq<Event>, was: Ledger,
                   mid: Ledger, ledger: Ledger, mark0: Option<int>, mark1: Option<int>, mark: Option<int>,
                   beat: bool, ok: bool, live: bool, sends: bool, now: int)
      requires i < |cands| && DistinctCands(cands) && (ok ==> live) && (sends ==> ok)
      requires CycleDone(cands, i, pick, sent, added, was, mid, mark0, mark1, live, sends, now)
      requires (live ==> beat == Quiet(sent, cands[i].id, now)) && cands[i].id in mid.targets
      requires TurnPosts(mid, ledger, cands[i], TurnEvents(cands[i], i == pick, beat, ok, now))
      requires mark == if cfg.settle > 0 && i == pick && Changes(cands[i].d) && (ok || !live) then Some(now) else mark1
      ensures CycleDone(cands, i + 1, pick, sent, added + TurnEvents(cands[i], i == pick, beat, ok, now), was, ledger,
                        mark0, mark, live, sends, now)
    {
      ServedNext(cands, i, pick, sent, added, beat, ok, live, sends, now);
      PostedNext(was, mid, ledger, added, cands[i], i == pick, beat, ok, now);
      MarkedNext(cands, i, pick, added, beat, ok, live, mark0, mark1, mark, now);
    }

    /** The candidates from i on were last sent a command when they had been at the start. */
    ghost predicate SameTimes(cands: seq<Cand>, i: nat, sent: map<Id, int>, lastSent: map<Id, int>)
    {
      forall j :: i <= j < |cands| ==> SameTime(sent, lastSent, cands[j].id)
    }

    lemma SameTimesNext(cands: seq<Cand>, i: nat, sent: map<Id, int>, mid: map<Id, int>, now: int)
      requires i < |cands| && DistinctCands(cands) && SameTimes(cands, i, sent, mid)
      ensures SameTimes(cands, i + 1, sent, mid) && SameTimes(cands, i + 1, sent, mid[cands[i].id := now])
      ensures SameTime(sent, mid, cands[i].id)
    {
    }

    /** Second half: every candidate gets its turn, at most one of them to change when
        changes are serialised. */
    method Serve(cands: seq<Cand>, pick: int, now: int) returns (out: seq<Policy.Decision>, ghost added: seq<Event>)
      requires Valid() && DistinctCands(cands) && StillDue(cands, 0)
      requires Serialised() && pick >= 0 ==> WindowOpen(now)
      modifies `attempts, `targets, `pending, `miss, `lastSent, `lastMutation, `log
      ensures Valid() && log == old(log) + added && Outcomes(cands, out, |cands|, pick)
      ensures CycleDone(cands, |cands|, pick, old(lastSent), added, old(Posts()), Posts(), old(lastMutation),
                        lastMutation, Live(), AlwaysSends(), now)
    {
      out, added := [], [];
      ghost var h0, sent, was, mark := log, lastSent, Posts(), lastMutation;
      var i := 0;
      while i < |cands|
        invariant 0 <= i <= |cands| && Outcomes(cands, out, i, pick)
        invariant Valid() && StillDue(cands, i) && SameTimes(cands, i, sent, lastSent) && log == h0 + added
        invariant Serialised() && i <= pick ==> WindowOpen(now)
        invariant CycleDone(cands, i, pick, sent, added, was, Posts(), mark, lastMutation, Live(), AlwaysSends(), now)
      {
        var d;
        ghost var more;
        d, more := ServeOne(cands, i, pick, sent, added, was, mark, now);
        out, added := out + [d], added + more;
        i := i + 1;
      }
    }

    method ServeOne(cands: seq<Cand>, i: nat, pick: int, ghost sent: map<Id, int>, ghost added: seq<Event>,
                    ghost was: Ledger, ghost mark: Option<int>, now: int)
      returns (d: Policy.Decision, ghost more: seq<Event>)
      requires Valid() && i < |cands| && DistinctCands(cands) && StillDue(cands, i)
      requires Serialised() && i == pick ==> WindowOpen(now)
      requires SameTimes(cands, i, sent, lastSent)
      requires CycleDone(cands, i, pick, sent, added, was, Posts(), mark, lastMutation, Live(), AlwaysSends(), now)
      modifies `attempts, `targets, `pending, `miss, `lastSent, `lastMutation, `log
      ensures Valid() && StillDue(cands, i + 1) && log == old(log) + more && d == Outcome(cands[i], i == pick)
      ensures SameTimes(cands, i + 1, sent, lastSent)
      ensures CycleDone(cands, i + 1, pick, sent, added + more, was, Posts(), mark, lastMutation, Live(),
                        AlwaysSends(), now)
      ensures i != pick ==> lastMutation == old(lastMutation)
    {
      ghost var beat, ok := BeatDue(cands[i].id, now), Live() && radio(attempts);
      ghost var mid, mark1 := Posts(), lastMutation;
      SameTimesNext(cands, i, sent, lastSent, now);
      more := TurnEvents(cands[i], i == pick, beat, ok, now);
      d := Turn(cands, i, pick, more, now);
      DoneNext(cands, i, pick, sent, added, was, mid, Posts(), mark, mark1, lastMutation, beat, ok, Live(),
               AlwaysSends(), now);
    }

    ghost predicate Outcomes(cands: seq<Cand>, out: seq<Policy.Decision>, n: nat, pick: int)
      requires n <= |cands|
    {
      |out| == n && forall i :: 0 <= i < n ==> out[i] == Outcome(cands[i], i == pick)
    }

    /** The change of highest priority, when one may be made at all. */
    ghost predicate Chosen(cands: seq<Cand>, pick: int, open: bool)
    {
      && -1 <= pick < |cands|
      && (pick >= 0 ==> open && Changes(cands[pick].d)
                        && forall i :: 0 <= i < |cands| && Changes(cands[i].d) ==>
                             Priority(cands[i].d) <= Priority(cands[pick].d))
      && (pick < 0 && open ==> forall i :: 0 <= i < |cands| ==> !Changes(cands[i].d))
    }

    /** The decision reported for a candidate: a change that is not made is a hold. */
    ghost predicate Reported(c: Cand, picked: bool, d: Policy.Decision)
    {
      if (c.d.action == Policy.Lower || c.d.action == Policy.Raise) && cfg.settle > 0 && !picked
      then d == Policy.Decision(Policy.Hold, 0, c.cur, c.d.margin) else d == c.d
    }

    /** What a cycle sends, on the state before it: `first` ends decreases, `then` is what
        the candidates' turns bring on the times commands were last sent; a candidate
        whose decrease was confirmed just now needs no heartbeat. */
    ghost predicate CycleSends(snap: Snapshot, cands: seq<Cand>, pick: int, desk: Desk, first: seq<Event>,
                               rest: seq<Event>, live: bool, sends: bool, now: int)
    {
      && (forall e :: e in first ==> Ends(snap.links, desk, live, e, now))
      && (forall e :: e in rest ==> live && Brought(cands, |cands|, pick, desk.lastSent, e, now))
      && OncePerNode(rest)
      && (sends ==> forall n :: n in desk.pending ==> EndsDue(snap, desk, first, n, now))
      && (sends ==> forall j :: 0 <= j < |cands| ==> TurnDue(cands[j], j == pick, desk, rest, now))
    }

    /** A waiting node has its CONFIRM when it is heard, and is given up at the second miss. */
    ghost predicate EndsDue(snap: Snapshot, desk: Desk, added: seq<Event>, n: Id, now: int)
      requires n in desk.pending
    {
      if ConnFloor.IsHeard(snap.links, n, now, maxAge)
      then Confirm(n, desk.pending[n], now) in added && Abandon(n, now) !in added
      else Abandon(n, now) in added <==> Counter(desk.miss, n) >= 1
    }

    /** A candidate has its change when it may be made, or its heartbeat exactly when it
        holds, was not waiting, and was last sent a command long enough ago. */
    ghost predicate TurnDue(c: Cand, picked: bool, desk: Desk, added: seq<Event>, now: int)
    {
      && (c.d.action == Policy.Raise && (cfg.settle <= 0 || picked) ==>
          Power(c.id, c.d.newTarget, now, Raised) in added)
      && (c.d.action == Policy.Lower && (cfg.settle <= 0 || picked) ==>
          Power(c.id, c.d.newTarget, now, Lowered) in added)
      && (Power(c.id, c.cur, now, Heartbeat) in added <==>
            c.d.action == Policy.Hold && heartbeat > 0 && c.id !in desk.pending
            && c.id in desk.lastSent && now - desk.lastSent[c.id] >= heartbeat)
    }

    /** One cycle.  Every managed node gets one decision; serialised, only the change of
        highest priority is made and only once the window is open.  Every POWER sent goes
        to a managed node, heartbeats too stay inside the limits, and when commands get
        through every reported change was sent, every held node not spoken to for long
        enough had its heartbeat and every decrease heard again was confirmed. */
    method Tick(snap: Snapshot, now: int)
      returns (out: seq<Policy.Decision>, ghost cands: seq<Cand>, ghost survey: Survey, ghost pick: int,
               ghost first: seq<Event>, ghost rest: seq<Event>)
      requires Valid() && SnapshotOk(snap)
      modifies `attempts, `targets, `pending, `miss, `lastSent, `overband, `lastMutation, `log
      ensures Valid() && log == old(log) + first + rest
      ensures Plan(snap, now, old(Remembered()), overband, survey, cands)
      ensures AllReported(cands, pick, out)
      ensures Chosen(cands, pick, Serialised() && old(WindowOpen(now)))
      ensures CycleSends(snap, cands, pick, old(Waiting()), first, rest, Live(), AlwaysSends(), now)
      ensures CycleLeaves(cands, pick, rest, old(targets), old(miss), old(lastMutation), Posts(), lastMutation, Live(),
                          now)
      ensures PowersOk(snap, first + rest, now) && (old(Within()) ==> Within())
    {
      var cs;
      cs, survey, first := Prepare(snap, now);
      ghost var desk, seeded := Waiting(), targets;
      var chosen;
      out, chosen, rest := Act(cs, now);
      cands, pick := cs, chosen;
      assert log == old(log) + (first + rest);
      CycleMeaning(snap, cs, chosen, old(Waiting()), desk, old(targets), seeded, Posts(), old(lastMutation),
                   lastMutation, first, rest, Live(), AlwaysSends(), now);
      StaysWithin(snap, old(log), first + rest, log, now);
    }

    /** What a cycle leaves behind, on the state before it. */
    ghost predicate CycleLeaves(cands: seq<Cand>, pick: int, added: seq<Event>, targets0: map<Id, i8>,
                                miss0: map<Id, int>, mark0: Option<int>, ledger: Ledger, mark: Option<int>,
                                live: bool, now: int)
    {
      && Marked(cands, |cands|, pick, added, live, mark0, mark, now)
      && Retargeted(targets0, ledger.targets, cands, added) && MissesCounted(miss0, ledger, added)
    }

    lemma CycleMeaning(snap: Snapshot, cands: seq<Cand>, pick: int, was: Desk, desk: Desk, targets0: map<Id, i8>,
                       seeded: map<Id, i8>, ledger: Ledger, mark0: Option<int>, mark: Option<int>,
                       first: seq<Event>, rest: seq<Event>, live: bool, sends: bool, now: int)
      requires Resolving(snap.links, was, desk, {}, first, live, sends, now) && Seeded(targets0, seeded, cands)
      requires DistinctCands(cands) && MayTuneAll(snap, now, cands)
      requires CycleDone(cands, |cands|, pick, desk.lastSent, rest, Ledger(seeded, desk.pending, desk.miss), ledger,
                         mark0, mark, live, sends, now)
      ensures CycleSends(snap, cands, pick, was, first, rest, live, sends, now) && PowersOk(snap, first + rest, now)
      ensures CycleLeaves(cands, pick, rest, targets0, was.miss, mark0, ledger, mark, live, now)
    {
      CycleHistory(snap, cands, pick, was, desk, first, rest, live, sends, now);
      CycleLedger(snap.links, was, desk, targets0, seeded, ledger, cands, first, rest, live, sends, now);
    }

    /** Every decision taken is reported. */
    ghost predicate AllReported(cands: seq<Cand>, pick: int, out: seq<Policy.Decision>)
    {
      |out| == |cands| && forall j :: 0 <= j < |cands| ==> Reported(cands[j], j == pick, out[j])
    }

    /** A node left waiting has one miss more, a decrease just sent none. */
    ghost predicate MissesCounted(was: map<Id, int>, ledger: Ledger, added: seq<Event>)
    {
      forall n :: n in ledger.pending ==>
        Counter(ledger.miss, n) == if LoweredIn(added, n) then 0 else Counter(was, n) + 1
    }

    /** Choose the change to make, if one is due, and give every candidate its turn. */
    method Act(cands: seq<Cand>, now: int)
      returns (out: seq<Policy.Decision>, pick: int, ghost added: seq<Event>)
      requires Valid() && DistinctCands(cands) && StillDue(cands, 0)
      modifies `attempts, `targets, `pending, `miss, `lastSent, `lastMutation, `log
      ensures Valid() && log == old(log) + added && AllReported(cands, pick, out)
      ensures Chosen(cands, pick, Serialised() && old(WindowOpen(now)))
      ensures CycleDone(cands, |cands|, pick, old(lastSent), added, old(Posts()), Posts(), old(lastMutation),
                        lastMutation, Live(), AlwaysSends(), now)
    {
      pick := -1;
      if Serialised() && WindowOpen(now) {
        pick := Pick(cands);
      }
      out, added := Serve(cands, pick, now);
    }

    /** Each target is the one decided on, or what a change of this cycle set; nodes that
        are no candidates keep theirs. */
    ghost predicate Retargeted(was: map<Id, i8>, targets: map<Id, i8>, cands: seq<Cand>, added: seq<Event>)
    {
      && (forall c :: c in cands ==>
            c.id in targets && (targets[c.id] == c.cur || ChangedIn(added, c.id, targets[c.id])))
      && (forall n :: n in was ==> n in targets && (targets[n] == was[n] || ChangedIn(added, n, targets[n])))
      && (forall n :: n in targets ==> n in was || exists c :: c in cands && c.id == n)
    }

    /** A history inside the limits, extended by allowed events whose changes are too. */
    lemma StaysWithin(snap: Snapshot, h: seq<Event>, added: seq<Event>, after: seq<Event>, now: int)
      requires after == h + added && Disciplined(after, cfg.settle) && PowersOk(snap, added, now)
      ensures InLimits(h) ==> InLimits(after)
    {
      if InLimits(h) && cfg.policy.powerMin <= cfg.policy.powerMax {
        forall k | 0 <= k < |after| && IsChange(after[k])
          ensures cfg.policy.powerMin <= after[k].dbm <= cfg.policy.powerMax
        {
          if k < |h| {
            assert after[k] == h[k];
          } else {
            assert after[k] == added[k - |h|] && NewPowerOk(snap, added[k - |h|], now);
          }
        }
        ChangesBoundPowers(after, cfg.settle, cfg.policy.powerMin, cfg.policy.powerMax);
      }
    }

    ghost predicate PowersOk(snap: Snapshot, added: seq<Event>, now: int)
    {
      forall e :: e in added && e.Power? ==> NewPowerOk(snap, e, now)
    }

    /** The two halves of a cycle put together, on the state before it. */
    lemma CycleHistory(snap: Snapshot, cands: seq<Cand>, pick: int, was: Desk, desk: Desk, first: seq<Event>,
                       rest: seq<Event>, live: bool, sends: bool, now: int)
      requires Resolving(snap.links, was, desk, {}, first, live, sends, now)
      requires Served(cands, |cands|, pick, desk.lastSent, rest, live, sends, now)
      requires DistinctCands(cands) && MayTuneAll(snap, now, cands)
      ensures PowersOk(snap, first + rest, now)
      ensures CycleSends(snap, cands, pick, was, first, rest, live, sends, now)
    {
      forall e | e in rest
        ensures live && Brought(cands, |cands|, pick, was.lastSent, e, now) && NewPowerOk(snap, e, now)
      {
        assert Brought(cands, |cands|, pick, desk.lastSent, e, now);
        BroughtBefore(snap, cands, pick, was, desk, e, now);
      }
      if sends {
        forall n | n in was.pending
          ensures EndsDue(snap, was, first, n, now)
        {
          assert Resolved(snap.links, was, desk, first, sends, n, now);
        }
        forall j | 0 <= j < |cands|
          ensures TurnDue(cands[j], j == pick, was, rest, now)
        {
          TurnSent(snap, cands, j, pick, was, desk, first, rest, live, now);
        }
      }
      forall e | e in first
        ensures !e.Power?
      {
        assert Ends(snap.links, was, live, e, now);
      }
    }

    /** Resolving only makes nodes less quiet. */
    lemma BroughtBefore(snap: Snapshot, cands: seq<Cand>, pick: int, was: Desk, desk: Desk, e: Event, now: int)
      requires Brought(cands, |cands|, pick, desk.lastSent, e, now)
      requires forall n :: SameOrNow(was, desk, n, now)
      requires MayTuneAll(snap, now, cands)
      ensures Brought(cands, |cands|, pick, was.lastSent, e, now) && NewPowerOk(snap, e, now)
    {
      var j: nat :| j < |cands| && Brings(cands[j], j == pick, Quiet(desk.lastSent, cands[j].id, now), e, now);
      assert SameOrNow(was, desk, cands[j].id, now);
      assert Brings(cands[j], j == pick, Quiet(was.lastSent, cands[j].id, now), e, now);
      assert cands[j] in cands && MayTune(snap, now, cands[j]);
    }

    /** A candidate that was waiting is heard, so it was confirmed just now. */
    lemma NotQuiet(snap: Snapshot, c: Cand, was: Desk, desk: Desk, first: seq<Event>, live: bool, now: int)
      requires Resolving(snap.links, was, desk, {}, first, live, true, now)
      requires MayTune(snap, now, c) && c.d.action != Policy.Skip
      ensures Quiet(desk.lastSent, c.id, now) <==> c.id !in was.pending && Quiet(was.lastSent, c.id, now)
    {
      if c.id in was.pending {
        assert Resolved(snap.links, was, desk, first, true, c.id, now);
      } else {
        assert LeftAlone(was, desk, c.id);
      }
    }

    lemma TurnSent(snap: Snapshot, cands: seq<Cand>, j: nat, pick: int, was: Desk, desk: Desk, first: seq<Event>,
                   rest: seq<Event>, live: bool, now: int)
      requires Resolving(snap.links, was, desk, {}, first, live, true, now) && j < |cands|
      requires Served(cands, |cands|, pick, desk.lastSent, rest, live, true, now)
      requires DistinctCands(cands) && MayTuneAll(snap, now, cands)
      ensures TurnDue(cands[j], j == pick, was, rest, now)
    {
      var c := cands[j];
      assert c in cands;
      if c.d.action != Policy.Skip { NotQuiet(snap, c, was, desk, first, live, now); }
      forall e | Brings(c, j == pick, Quiet(desk.lastSent, c.id, now), e, now)
        ensures e in rest
      {
        assert Brought(cands, |cands|, pick, desk.lastSent, e, now);
      }
      var beat := Power(c.id, c.cur, now, Heartbeat);
      if beat in rest {
        var i: nat :| i < |cands| && Brings(cands[i], i == pick, Quiet(desk.lastSent, cands[i].id, now), beat, now);
        assert i == j;
      }
    }

    lemma CycleLedger(links: seq<Link>, was: Desk, desk: Desk, targets0: map<Id, i8>, seeded: map<Id, i8>,
                      ledger: Ledger, cands: seq<Cand>, first: seq<Event>, rest: seq<Event>, live: bool, sends: bool,
                      now: int)
      requires Resolving(links, was, desk, {}, first, live, sends, now) && Seeded(targets0, seeded, cands)
      requires Posted(Ledger(seeded, desk.pending, desk.miss), ledger, rest)
      ensures Retargeted(targets0, ledger.targets, cands, rest)
      ensures MissesCounted(was.miss, ledger, rest)
    {
      var before := Ledger(seeded, desk.pending, desk.miss);
      forall n
        ensures n in seeded <==> n in ledger.targets
        ensures n in seeded ==> ledger.targets[n] == seeded[n] || ChangedIn(rest, n, ledger.targets[n])
        ensures n in ledger.pending ==>
                  Counter(ledger.miss, n) == if LoweredIn(rest, n) then 0 else Counter(was.miss, n) + 1
      {
        assert PostedAt(before, ledger, rest, n);
        if n in desk.pending { MissedOnce(links, was, desk, first, live, sends, n, now); }
      }
    }

    lemma MissedOnce(links: seq<Link>, was: Desk, desk: Desk, first: seq<Event>, live: bool, sends: bool, n: Id,
                     now: int)
      requires Resolving(links, was, desk, {}, first, live, sends, now) && n in desk.pending
      ensures Counter(desk.miss, n) == Counter(was.miss, n) + 1
    {
      assert n !in was.pending ==> LeftAlone(was, desk, n);
      assert Resolved(links, was, desk, first, sends, n, now);
    }

    /** A POWER of this cycle goes to a managed node; a change respects the limits. */
    ghost predicate NewPowerOk(snap: Snapshot, e: Event, now: int)
    {
      && e.Power? && e.at == now
      && (exists j :: 0 <= j < |snap.nodes| && snap.nodes[j].id == e.node && Managed(snap, snap.nodes[j]))
      && (e.kind != Heartbeat && cfg.policy.powerMin <= cfg.policy.powerMax ==>
          cfg.policy.powerMin <= e.dbm <= cfg.policy.powerMax)
    }
  }
}
