/** Signed link blocks with a dead-man timer (src/main.cpp): a table of expiries kept
    beside the router's own list of blocked links. */
module CtrlBlock {
  import opened Basics
  import opened Bytes
  import opened Clock32
  import opened MeshTypes
  import opened Router

  const TTL_DEFAULT_MIN: nat := 30
  const TTL_MAX_MIN: nat := 120
  const MINUTE_MS: nat := 60000

  datatype Slot = Slot(victim: NodeId, expiry: u32)

  const FREE: Slot := Slot(ZERO_ID, 0)

  predicate Live(s: Slot) { s.expiry != 0 }

  predicate Overdue(s: Slot, now: u32)
  {
    Live(s) && Reached(now, s.expiry)
  }

  function Ttl(arg: int): nat
  {
    if arg <= 0 then TTL_DEFAULT_MIN else if arg > TTL_MAX_MIN then TTL_MAX_MIN else arg
  }

  /** The stored expiry; 0 is kept for a free slot. */
  function Stamp(now: u32, ttl: nat): (e: u32)
    ensures e != 0
  {
    var e := (now + ttl * MINUTE_MS) % SPAN;
    if e == 0 then 1 else e
  }

  /** When a block received at `from` runs out: after the minutes asked for, 30 when none
      are and 120 at most, and a millisecond later where the stamp would read as free. */
  ghost predicate RunsOut(arg: int, from: nat, due: nat)
  {
    var at := from + (if arg <= 0 then 30 else if arg > 120 then 120 else arg) * 60000;
    due == if at % 0x1_0000_0000 == 0 then at + 1 else at
  }

  function DueAt(at: nat, ttl: nat): nat
  {
    var d := at + ttl * MINUTE_MS;
    if d % SPAN == 0 then d + 1 else d
  }

  lemma StampExact(arg: int, from: nat, due: nat)
    requires RunsOut(arg, from, due)
    ensures Stamp(from % SPAN, Ttl(arg)) == due % SPAN != 0 && from < due <= from + 120 * 60000 + 1
  {
    AfterDelay(from, Ttl(arg) * MINUTE_MS);
    var at := from + Ttl(arg) * MINUTE_MS;
    if at % SPAN == 0 { assert (at + 1) % SPAN == 1; }
  }

  // ------------------------------------------------------------------- the table

  function LiveAt(t: seq<Slot>, v: NodeId, i: nat): (r: int)
    requires i <= |t|
    ensures r == -1 || i <= r < |t|
    decreases |t| - i
  {
    if i == |t| then -1 else if Live(t[i]) && t[i].victim == v then i else LiveAt(t, v, i + 1)
  }

  function FreeAt(t: seq<Slot>, i: nat): (r: int)
    requires i <= |t|
    ensures r == -1 || i <= r < |t|
    decreases |t| - i
  {
    if i == |t| then -1 else if !Live(t[i]) then i else FreeAt(t, i + 1)
  }

  lemma {:induction false} LiveAtMeaning(t: seq<Slot>, v: NodeId, i: nat)
    requires i <= |t|
    ensures LiveAt(t, v, i) == -1 <==> forall k :: i <= k < |t| ==> !(Live(t[k]) && t[k].victim == v)
    ensures LiveAt(t, v, i) >= 0 ==> Live(t[LiveAt(t, v, i)]) && t[LiveAt(t, v, i)].victim == v
    decreases |t| - i
  {
    if i < |t| { LiveAtMeaning(t, v, i + 1); }
  }

  lemma {:induction false} FreeAtMeaning(t: seq<Slot>, i: nat)
    requires i <= |t|
    ensures FreeAt(t, i) == -1 <==> forall k :: i <= k < |t| ==> Live(t[k])
    ensures FreeAt(t, i) >= 0 ==> !Live(t[FreeAt(t, i)])
    decreases |t| - i
  {
    if i < |t| { FreeAtMeaning(t, i + 1); }
  }

  /** The timer running for a victim. */
  function Timer(t: seq<Slot>, v: NodeId): Option<u32>
  {
    var i := LiveAt(t, v, 0);
    if i < 0 then None else Some(t[i].expiry)
  }

  function Set(t: seq<Slot>, v: NodeId, expiry: u32): (r: seq<Slot>)
    ensures |r| == |t|
  {
    var i := LiveAt(t, v, 0);
    if i >= 0 then t[i := t[i].(expiry := expiry)]
    else
      var f := FreeAt(t, 0);
      if f >= 0 then t[f := Slot(v, expiry)] else t
  }

  function Cleared(t: seq<Slot>, v: NodeId): (r: seq<Slot>)
    ensures |r| == |t|
  {
    seq(|t|, i requires 0 <= i < |t| => if t[i].victim == v then FREE else t[i])
  }

  function SweptTable(t: seq<Slot>, now: u32): (r: seq<Slot>)
    ensures |r| == |t|
  {
    seq(|t|, i requires 0 <= i < |t| => if Overdue(t[i], now) then FREE else t[i])
  }

  /** The blocked list once the first n slots have been swept. */
  function SweptList(t: seq<Slot>, blocked: seq<NodeId>, n: nat, now: u32): seq<NodeId>
    requires n <= |t|
  {
    if n == 0 then blocked
    else
      var b := SweptList(t, blocked, n - 1, now);
      if Overdue(t[n - 1], now) then Unblocked(b, t[n - 1].victim) else b
  }

  ghost predicate OverdueFor(t: seq<Slot>, n: nat, now: u32, x: NodeId)
    requires n <= |t|
  {
    exists i :: 0 <= i < n && Overdue(t[i], now) && t[i].victim == x
  }

  lemma {:induction false} SweptListMeaning(t: seq<Slot>, blocked: seq<NodeId>, me: NodeId, n: nat, now: u32)
    requires n <= |t| && BlockListOk(blocked, me)
    ensures BlockListOk(SweptList(t, blocked, n, now), me)
    ensures forall x :: x in SweptList(t, blocked, n, now) <==> x in blocked && !OverdueFor(t, n, now, x)
  {
    if n > 0 {
      SweptListMeaning(t, blocked, me, n - 1, now);
      var b := SweptList(t, blocked, n - 1, now);
      BlockListMeaning(b, me, t[n - 1].victim);
      forall x
        ensures OverdueFor(t, n, now, x) <==>
                  OverdueFor(t, n - 1, now, x) || (Overdue(t[n - 1], now) && t[n - 1].victim == x)
      {
      }
    }
  }

  // -------------------------------------------------------------------- the rails

  datatype Rails = Rails(me: NodeId, blocked: seq<NodeId>, table: seq<Slot>)

  datatype Event =
    | SignedBlock(victim: NodeId, arg: int, at: nat)
    | SignedUnblock(victim: NodeId)
    | ConsoleBlock(victim: NodeId)
    | ConsoleUnblock(victim: NodeId)
    | Sweep(at: nat)

  function Apply(r: Rails, e: Event): Rails
  {
    match e
    case SignedBlock(v, arg, at) =>
      if v == ZERO_ID || v == r.me || !CanBlock(r.blocked, r.me, v) then r
      else Rails(r.me, Blocked(r.blocked, r.me, v), Set(r.table, v, Stamp(at % SPAN, Ttl(arg))))
    case SignedUnblock(v) =>
      if v == ZERO_ID then r else Rails(r.me, Unblocked(r.blocked, v), Cleared(r.table, v))
    case ConsoleBlock(v) => r.(blocked := Blocked(r.blocked, r.me, v))
    case ConsoleUnblock(v) => r.(blocked := Unblocked(r.blocked, v))
    case Sweep(at) => Rails(r.me, SweptList(r.table, r.blocked, |r.table|, at % SPAN), SweptTable(r.table, at % SPAN))
  }

  ghost predicate Apart(t: seq<Slot>, i: nat, k: nat)
    requires i < |t| && k < |t|
  {
    Live(t[i]) && Live(t[k]) && i != k ==> t[i].victim != t[k].victim
  }

  ghost predicate AllApart(t: seq<Slot>)
  {
    forall i, k :: 0 <= i < |t| && 0 <= k < |t| ==> Apart(t, i, k)
  }

  /** Both tables are well formed; this every event keeps. */
  ghost predicate Tidy(r: Rails)
  {
    BlockListOk(r.blocked, r.me) && |r.table| == MAX_BLOCKED && AllApart(r.table)
  }

  /** And every timed victim is blocked, which a console unblock can undo. */
  ghost predicate Inv(r: Rails)
  {
    Tidy(r) && forall i :: 0 <= i < MAX_BLOCKED ==> Live(r.table[i]) ==> r.table[i].victim in r.blocked
  }

  /** There is a slot the timer of v can go into. */
  ghost predicate HasSlot(t: seq<Slot>, v: NodeId)
  {
    Timer(t, v).Some? || exists k :: 0 <= k < |t| && !Live(t[k])
  }

  // ------------------------------------------------------------------- pigeonhole

  /** Distinct members of the list that avoid one other member do not fill eight slots. */
  lemma RoomLeft(blocked: seq<NodeId>, victims: seq<NodeId>, v: NodeId)
    requires Router.Distinct(blocked) && |blocked| <= MAX_BLOCKED && Router.Distinct(victims)
    requires v in blocked && v !in victims && forall x :: x in victims ==> x in blocked
    ensures |victims| < MAX_BLOCKED
  {
    DistinctSize(blocked);
    DistinctSize(victims);
    SubsetSize(Members(victims) + {v}, Members(blocked));
  }

  /** With every timed victim blocked there always is a slot. */
  lemma SlotExists(t: seq<Slot>, blocked: seq<NodeId>, v: NodeId)
    requires |t| == MAX_BLOCKED && AllApart(t) && Router.Distinct(blocked) && |blocked| <= MAX_BLOCKED && v in blocked
    requires forall i :: 0 <= i < |t| ==> Live(t[i]) ==> t[i].victim in blocked
    ensures HasSlot(t, v)
  {
    LiveAtMeaning(t, v, 0);
    if !HasSlot(t, v) {
      var victims := seq(|t|, k requires 0 <= k < |t| => t[k].victim);
      forall j, k | 0 <= j < k < |victims|
        ensures victims[j] != victims[k]
      {
        assert Apart(t, j, k);
      }
      RoomLeft(blocked, victims, v);
      assert false;
    }
  }

  lemma TableApart(t: seq<Slot>, s: nat, e: Slot)
    requires s < |t| && AllApart(t) && forall k :: 0 <= k < |t| && k != s ==> !(Live(t[k]) && t[k].victim == e.victim)
    ensures AllApart(t[s := e])
  {
    var u := t[s := e];
    forall i, k | 0 <= i < |u| && 0 <= k < |u|
      ensures Apart(u, i, k)
    {
      assert Apart(t, i, k);
    }
  }

  /** Writing a live slot for v over its own or a free one changes only v's timer. */
  lemma SlotTimed(t: seq<Slot>, s: nat, v: NodeId, e: u32)
    requires s < |t| && e != 0 && AllApart(t) && (Live(t[s]) ==> t[s].victim == v)
    requires forall k :: 0 <= k < |t| && k != s ==> !(Live(t[k]) && t[k].victim == v)
    ensures Timer(t[s := Slot(v, e)], v) == Some(e)
    ensures forall x :: x != v ==> Timer(t[s := Slot(v, e)], x) == Timer(t, x)
  {
    var u := t[s := Slot(v, e)];
    LiveAtMeaning(u, v, 0);
    assert LiveAt(u, v, 0) == s by {
      assert Live(u[s]) && u[s].victim == v;
    }
    forall x | x != v
      ensures Timer(u, x) == Timer(t, x)
    {
      SameTimer(t, u, x);
    }
  }

  /** Tables whose slots for x agree run the same timer for x. */
  lemma SameTimer(t: seq<Slot>, u: seq<Slot>, x: NodeId)
    requires |t| == |u| && AllApart(t)
    requires forall k :: 0 <= k < |t| ==> (Live(t[k]) && t[k].victim == x <==> Live(u[k]) && u[k].victim == x)
    requires forall k :: 0 <= k < |t| ==> (Live(t[k]) && t[k].victim == x ==> t[k].expiry == u[k].expiry)
    ensures Timer(u, x) == Timer(t, x)
  {
    LiveAtMeaning(t, x, 0);
    LiveAtMeaning(u, x, 0);
    var i, k := LiveAt(t, x, 0), LiveAt(u, x, 0);
    if i >= 0 && k >= 0 { assert Apart(t, i, k); }
  }

  /** Arming a timer: v's is set exactly when there is a slot for it, no other changes. */
  lemma SetExact(t: seq<Slot>, v: NodeId, e: u32)
    requires e != 0 && AllApart(t)
    ensures AllApart(Set(t, v, e))
    ensures Timer(Set(t, v, e), v) == if HasSlot(t, v) then Some(e) else None
    ensures forall x :: x != v ==> Timer(Set(t, v, e), x) == Timer(t, x)
  {
    LiveAtMeaning(t, v, 0);
    FreeAtMeaning(t, 0);
    var i := LiveAt(t, v, 0);
    var s := if i >= 0 then i else FreeAt(t, 0);
    if s >= 0 {
      forall k | 0 <= k < |t| && k != s
        ensures !(Live(t[k]) && t[k].victim == v)
      {
        if i >= 0 { assert Apart(t, s, k); }
      }
      assert Set(t, v, e) == t[s := Slot(v, e)];
      SlotTimed(t, s, v, e);
      TableApart(t, s, Slot(v, e));
    }
  }

  lemma SetVictims(t: seq<Slot>, v: NodeId, e: u32)
    ensures forall i :: 0 <= i < |t| ==> Set(t, v, e)[i] == t[i] || Set(t, v, e)[i].victim == v
  {
    LiveAtMeaning(t, v, 0);
  }

  // ------------------------------------------------------------------- every event

  /** A signed block that the router takes: blocked for certain, timed exactly when there
      is a slot, and no other victim is disturbed. */
  lemma BlockTimedExactly(r: Rails, v: NodeId, arg: int, at: nat, due: nat)
    requires Tidy(r) && CanBlock(r.blocked, r.me, v) && RunsOut(arg, at, due)
    ensures var t := Apply(r, SignedBlock(v, arg, at));
            && Tidy(t) && v in t.blocked
            && Timer(t.table, v) == (if HasSlot(r.table, v) then Some(due % SPAN) else None)
            && forall x :: x != v ==> Timer(t.table, x) == Timer(r.table, x) && (x in t.blocked <==> x in r.blocked)
  {
    BlockListMeaning(r.blocked, r.me, v);
    StampExact(arg, at, due);
    SetExact(r.table, v, due % SPAN);
  }

  /** One that cannot be applied changes nothing: the zero id, the node itself, or a ninth
      victim. */
  lemma BlockRefused(r: Rails, v: NodeId, arg: int, at: nat)
    ensures CanBlock(r.blocked, r.me, v) <==> v != 0 && v != r.me && (v in r.blocked || |r.blocked| < 8)
    ensures !CanBlock(r.blocked, r.me, v) ==> Apply(r, SignedBlock(v, arg, at)) == r
  {
  }

  /** Without console unblocks an applied block always gets its timer. */
  lemma BlockTimed(r: Rails, v: NodeId, arg: int, at: nat, due: nat)
    requires Inv(r) && CanBlock(r.blocked, r.me, v) && RunsOut(arg, at, due)
    ensures var t := Apply(r, SignedBlock(v, arg, at));
            && Inv(t) && v in t.blocked && Timer(t.table, v) == Some(due % SPAN)
            && forall x :: x != v ==> Timer(t.table, x) == Timer(r.table, x) && (x in t.blocked <==> x in r.blocked)
  {
    BlockListMeaning(r.blocked, r.me, v);
    SlotExists(r.table, Blocked(r.blocked, r.me, v), v);
    BlockTimedExactly(r, v, arg, at, due);
    SetVictims(r.table, v, Stamp(at % SPAN, Ttl(arg)));
  }

  /** A signed unblock lifts exactly this block, timer and all. */
  lemma UnblockExact(r: Rails, v: NodeId)
    requires Tidy(r)
    ensures var t := Apply(r, SignedUnblock(v));
            && Tidy(t) && (Inv(r) ==> Inv(t)) && (v != ZERO_ID ==> v !in t.blocked && Timer(t.table, v) == None)
            && forall x :: x != v ==> Timer(t.table, x) == Timer(r.table, x) && (x in t.blocked <==> x in r.blocked)
  {
    var t := Apply(r, SignedUnblock(v));
    BlockListMeaning(r.blocked, r.me, v);
    LiveAtMeaning(t.table, v, 0);
    forall i, k | 0 <= i < MAX_BLOCKED && 0 <= k < MAX_BLOCKED
      ensures Apart(t.table, i, k)
    {
      assert Apart(r.table, i, k);
    }
    forall x | x != v
      ensures Timer(t.table, x) == Timer(r.table, x)
    {
      SameTimer(r.table, t.table, x);
    }
  }

  lemma SweepTidies(r: Rails, at: nat)
    requires Tidy(r)
    ensures var t := Apply(r, Sweep(at));
            Tidy(t) && forall x :: x in t.blocked <==> x in r.blocked && !OverdueFor(r.table, MAX_BLOCKED, at % SPAN, x)
  {
    var t := Apply(r, Sweep(at));
    SweptListMeaning(r.table, r.blocked, r.me, MAX_BLOCKED, at % SPAN);
    forall i, k | 0 <= i < MAX_BLOCKED && 0 <= k < MAX_BLOCKED
      ensures Apart(t.table, i, k)
    {
      assert Apart(r.table, i, k);
    }
  }

  lemma SweepKeeps(r: Rails, at: nat)
    requires Inv(r)
    ensures Inv(Apply(r, Sweep(at)))
  {
    var t, now := Apply(r, Sweep(at)), at % SPAN;
    SweepTidies(r, at);
    forall i | 0 <= i < MAX_BLOCKED && Live(t.table[i])
      ensures t.table[i].victim in t.blocked
    {
      forall k | 0 <= k < MAX_BLOCKED && Overdue(r.table[k], now)
        ensures r.table[k].victim != r.table[i].victim
      {
        assert Apart(r.table, i, k);
      }
    }
  }

  /** The console changes the list by exactly its victim, and leaves the timers alone. */
  lemma ConsoleExact(r: Rails, v: NodeId, x: NodeId)
    requires Tidy(r)
    ensures var t := Apply(r, ConsoleBlock(v));
            && t.table == r.table
            && (x in t.blocked <==> x in r.blocked || (x == v && v != 0 && v != r.me && |r.blocked| < 8))
    ensures var t := Apply(r, ConsoleUnblock(v));
            t.table == r.table && (x in t.blocked <==> x in r.blocked && x != v)
  {
    BlockListMeaning(r.blocked, r.me, v);
  }

  /** Every event but a console unblock keeps the timed victims blocked. */
  lemma InvKept(r: Rails, e: Event)
    requires Inv(r) && !e.ConsoleUnblock?
    ensures Inv(Apply(r, e))
  {
    match e
    case SignedBlock(v, arg, at) =>
      if CanBlock(r.blocked, r.me, v) { BlockTimed(r, v, arg, at, DueAt(at, Ttl(arg))); }
    case SignedUnblock(v) => UnblockExact(r, v);
    case ConsoleBlock(v) => BlockListMeaning(r.blocked, r.me, v);
    case Sweep(at) => SweepKeeps(r, at);
  }

  /** A sweep lifts a timed block when its time is up and not before. */
  lemma SweepExact(r: Rails, v: NodeId, due: nat, at: nat)
    requires Tidy(r) && v in r.blocked && Timer(r.table, v) == Some(due % SPAN) && -HALF <= at - due < HALF
    ensures var t := Apply(r, Sweep(at));
            && Tidy(t) && (v in t.blocked <==> at < due)
            && Timer(t.table, v) == if at < due then Timer(r.table, v) else None
  {
    var t, i := Apply(r, Sweep(at)), LiveAt(r.table, v, 0);
    SweepTidies(r, at);
    LiveAtMeaning(r.table, v, 0);
    ReachedExact(at, due);
    forall k | 0 <= k < MAX_BLOCKED && k != i
      ensures !(Live(r.table[k]) && r.table[k].victim == v)
    {
      assert Apart(r.table, i, k);
    }
    LiveAtMeaning(t.table, v, 0);
    if at < due {
      SameTimer(r.table, t.table, v);
    } else {
      assert Overdue(r.table[i], at % SPAN);
    }
  }

  /** And never lifts one without a timer. */
  lemma SweepSparesUntimed(r: Rails, v: NodeId, at: nat)
    requires Tidy(r) && Timer(r.table, v) == None
    ensures var t := Apply(r, Sweep(at)); Tidy(t) && (v in t.blocked <==> v in r.blocked) && Timer(t.table, v) == None
  {
    SweepTidies(r, at);
    LiveAtMeaning(r.table, v, 0);
    LiveAtMeaning(Apply(r, Sweep(at)).table, v, 0);
  }

  // ------------------------------------------------------------------- whole runs

  function Run(r: Rails, es: seq<Event>): Rails
  {
    if |es| == 0 then r else Apply(Run(r, es[..|es| - 1]), es[|es| - 1])
  }

  /** An event that neither renews nor lifts the block of v by name. */
  predicate LeavesAlone(e: Event, v: NodeId)
  {
    match e
    case SignedBlock(x, _, _) => x != v
    case SignedUnblock(x) => x != v
    case ConsoleBlock(_) => true
    case ConsoleUnblock(x) => x != v
    case Sweep(_) => true
  }

  ghost predicate AllLeave(es: seq<Event>, v: NodeId)
  {
    forall i :: 0 <= i < |es| ==> LeavesAlone(es[i], v)
  }

  /** Events that leave v alone, every sweep among them before it is due. */
  predicate Undisturbed(e: Event, v: NodeId, from: nat, due: nat)
  {
    LeavesAlone(e, v) && (e.Sweep? ==> from <= e.at < due)
  }

  /** Everything but a sweep leaves timer and block of v as they are. */
  lemma OthersKeep(r: Rails, e: Event, v: NodeId)
    requires Tidy(r) && LeavesAlone(e, v) && !e.Sweep?
    ensures Tidy(Apply(r, e)) && Timer(Apply(r, e).table, v) == Timer(r.table, v)
    ensures v in r.blocked ==> v in Apply(r, e).blocked
  {
    match e
    case SignedBlock(x, arg, at) =>
      if CanBlock(r.blocked, r.me, x) { BlockTimedExactly(r, x, arg, at, DueAt(at, Ttl(arg))); }
    case SignedUnblock(x) => UnblockExact(r, x);
    case ConsoleBlock(x) => BlockListMeaning(r.blocked, r.me, x);
    case ConsoleUnblock(x) => BlockListMeaning(r.blocked, r.me, x);
  }

  lemma {:induction false} RunStays(r: Rails, es: seq<Event>, v: NodeId, from: nat, due: nat)
    requires Tidy(r) && v in r.blocked && Timer(r.table, v) == Some(due % SPAN) && due - from < HALF
    requires forall i :: 0 <= i < |es| ==> Undisturbed(es[i], v, from, due)
    ensures Tidy(Run(r, es)) && v in Run(r, es).blocked && Timer(Run(r, es).table, v) == Some(due % SPAN)
  {
    if |es| > 0 {
      var before, e := Run(r, es[..|es| - 1]), es[|es| - 1];
      RunStays(r, es[..|es| - 1], v, from, due);
      if e.Sweep? { SweepExact(before, v, due, e.at); } else { OthersKeep(before, e, v); }
    }
  }

  /** A block without a timer survives every run that leaves it alone, however long and
      whatever is swept. */
  lemma {:induction false} UntimedStays(r: Rails, es: seq<Event>, v: NodeId)
    requires Tidy(r) && v in r.blocked && Timer(r.table, v) == None
    requires AllLeave(es, v)
    ensures Tidy(Run(r, es)) && v in Run(r, es).blocked && Timer(Run(r, es).table, v) == None
  {
    if |es| > 0 {
      var before, e := Run(r, es[..|es| - 1]), es[|es| - 1];
      UntimedStays(r, es[..|es| - 1], v);
      if e.Sweep? { SweepSparesUntimed(before, v, e.at); } else { OthersKeep(before, e, v); }
    }
  }

  /** Lifting, exactly.  Whatever the console did before and does to others since, a
      signed block stays until its time is up, at most 120 minutes and a millisecond
      later, and the first sweep after that lifts it if and only if a slot was free or
      the victim already had a timer when the block arrived. */
  lemma BlockLiftedExactly(r: Rails, v: NodeId, arg: int, from: nat, due: nat, es: seq<Event>, at: nat)
    requires Tidy(r) && CanBlock(r.blocked, r.me, v) && RunsOut(arg, from, due)
    requires forall i :: 0 <= i < |es| ==> Undisturbed(es[i], v, from, due)
    requires due <= at < due + HALF
    ensures due <= from + 120 * 60000 + 1
    ensures var t := Run(Apply(r, SignedBlock(v, arg, from)), es);
            && v in t.blocked && Timer(Apply(t, Sweep(at)).table, v) == None
            && (v !in Apply(t, Sweep(at)).blocked <==> HasSlot(r.table, v))
  {
    var s := Apply(r, SignedBlock(v, arg, from));
    BlockTimedExactly(r, v, arg, from, due);
    StampExact(arg, from, due);
    if HasSlot(r.table, v) {
      RunStays(s, es, v, from, due);
      SweepExact(Run(s, es), v, due, at);
    } else {
      UntimedStays(s, es, v);
      SweepSparesUntimed(Run(s, es), v, at);
    }
  }

  /** So where no console unblock came before, every block is lifted in time. */
  lemma BlockLifted(r: Rails, v: NodeId, arg: int, from: nat, due: nat, es: seq<Event>, at: nat)
    requires Inv(r) && CanBlock(r.blocked, r.me, v) && RunsOut(arg, from, due)
    requires forall i :: 0 <= i < |es| ==> Undisturbed(es[i], v, from, due)
    requires due <= at < due + HALF
    ensures due <= from + 120 * 60000 + 1
    ensures var t := Run(Apply(r, SignedBlock(v, arg, from)), es);
            && v in t.blocked && v !in Apply(t, Sweep(at)).blocked && Timer(Apply(t, Sweep(at)).table, v) == None
  {
    BlockListMeaning(r.blocked, r.me, v);
    SlotExists(r.table, Blocked(r.blocked, r.me, v), v);
    BlockLiftedExactly(r, v, arg, from, due, es, at);
  }

  /** An unblock typed at the console leaves its timer behind; with all eight slots live
      the next signed block is then applied without one, and stays through every run of
      sweeps and of events about others. */
  lemma UntimedAfterConsole(r: Rails, w: NodeId, v: NodeId, arg: int, at: nat, es: seq<Event>)
    requires Inv(r) && w in r.blocked && forall i :: 0 <= i < MAX_BLOCKED ==> Live(r.table[i])
    requires v != ZERO_ID && v != r.me && v !in r.blocked
    requires AllLeave(es, v)
    ensures var t := Run(Apply(Apply(r, ConsoleUnblock(w)), SignedBlock(v, arg, at)), es);
            v in t.blocked && Timer(t.table, v) == None
  {
    var u := Apply(r, ConsoleUnblock(w));
    BlockListMeaning(r.blocked, r.me, w);
    assert |u.blocked| < MAX_BLOCKED;
    LiveAtMeaning(r.table, v, 0);
    BlockTimedExactly(u, v, arg, at, DueAt(at, Ttl(arg)));
    UntimedStays(Apply(u, SignedBlock(v, arg, at)), es, v);
  }

  /** No run of sweeps and of events about others lifts the block of v. */
  ghost predicate Stuck(r: Rails, v: NodeId)
  {
    forall es :: AllLeave(es, v) ==> v in Run(r, es).blocked
  }

  lemma StuckAfterConsole(r: Rails, w: NodeId, v: NodeId, arg: int, at: nat)
    requires Inv(r) && w in r.blocked && forall i :: 0 <= i < MAX_BLOCKED ==> Live(r.table[i])
    requires v != ZERO_ID && v != r.me && v !in r.blocked
    ensures Stuck(Apply(Apply(r, ConsoleUnblock(w)), SignedBlock(v, arg, at)), v)
  {
    forall es | AllLeave(es, v)
      ensures v in Run(Apply(Apply(r, ConsoleUnblock(w)), SignedBlock(v, arg, at)), es).blocked
    {
      UntimedAfterConsole(r, w, v, arg, at, es);
    }
  }

  function Peer(i: nat): NodeId
    requires i < MAX_BLOCKED
  {
    i + 1
  }

  /** The rails of node 100 after it took signed blocks of its first n peers at time 0. */
  function Filled(n: nat): Rails
    requires n <= MAX_BLOCKED
  {
    Rails(100, seq(n, i requires 0 <= i < n => Peer(i)),
          seq(MAX_BLOCKED, i requires 0 <= i < MAX_BLOCKED => if i < n then Slot(Peer(i), Stamp(0, Ttl(0))) else FREE))
  }

  function FirstBlocks(n: nat): seq<Event>
    requires n <= MAX_BLOCKED
  {
    seq(n, i requires 0 <= i < n => SignedBlock(Peer(i), 0, 0))
  }

  lemma {:induction false} FreeAtFirst(t: seq<Slot>, i: nat, f: nat)
    requires i <= f < |t| && !Live(t[f]) && forall k :: i <= k < f ==> Live(t[k])
    ensures FreeAt(t, i) == f
    decreases f - i
  {
    if i < f { FreeAtFirst(t, i + 1, f); }
  }

  lemma OneMore(n: nat)
    requires n < MAX_BLOCKED
    ensures Apply(Filled(n), SignedBlock(Peer(n), 0, 0)) == Filled(n + 1)
  {
    var r, t := Filled(n), Filled(n + 1);
    assert Peer(n) !in r.blocked;
    LiveAtMeaning(r.table, Peer(n), 0);
    FreeAtFirst(r.table, 0, n);
    assert r.blocked + [Peer(n)] == t.blocked;
    assert r.table[n := Slot(Peer(n), Stamp(0, Ttl(0)))] == t.table;
  }

  lemma {:induction false} FillsUp(n: nat)
    requires n <= MAX_BLOCKED
    ensures Run(Filled(0), FirstBlocks(n)) == Filled(n)
  {
    if n > 0 {
      FillsUp(n - 1);
      OneMore(n - 1);
      assert FirstBlocks(n)[..n - 1] == FirstBlocks(n - 1);
    }
  }

  lemma FilledOk(n: nat)
    requires n <= MAX_BLOCKED
    ensures Inv(Filled(n))
  {
    var r := Filled(n);
    forall i, k | 0 <= i < |r.table| && 0 <= k < |r.table|
      ensures Apart(r.table, i, k)
    {
    }
    forall i | 0 <= i < MAX_BLOCKED && Live(r.table[i])
      ensures r.table[i].victim in r.blocked
    {
      assert r.blocked[i] == r.table[i].victim;
    }
  }

  /** Eight signed blocks after boot suffice: one is undone at the console, and the next
      one, taken before a sweep frees a slot, is never lifted, whatever its time to live. */
  lemma ConsoleUnblockBreaks() returns (boot: Rails, es: seq<Event>, w: NodeId, v: NodeId)
    ensures boot.blocked == [] && |boot.table| == MAX_BLOCKED && forall s :: s in boot.table ==> s == FREE
    ensures |es| == MAX_BLOCKED && forall e :: e in es ==> e.SignedBlock?
    ensures forall arg, at :: Stuck(Apply(Apply(Run(boot, es), ConsoleUnblock(w)), SignedBlock(v, arg, at)), v)
  {
    boot, es, w, v := Filled(0), FirstBlocks(MAX_BLOCKED), 1, 9;
    var r := Filled(MAX_BLOCKED);
    FillsUp(MAX_BLOCKED);
    FilledOk(MAX_BLOCKED);
    assert r.blocked[0] == w;
    forall arg, at
      ensures Stuck(Apply(Apply(r, ConsoleUnblock(w)), SignedBlock(v, arg, at)), v)
    {
      StuckAfterConsole(r, w, v, arg, at);
    }
  }

  // ------------------------------------------------------------------ the firmware

  class Rail {
    const node: Node
    const blk: array<Slot>

    ghost predicate Valid()
      reads this, node, node.neighbors, node.neighbors.slots, node.routes, node.routes.slots, node.blocked, blk
    {
      node.Valid() && blk.Length == MAX_BLOCKED
    }

    ghost function View(): Rails
      reads this, node, node.neighbors, node.neighbors.slots, node.routes, node.routes.slots, node.blocked, blk
      requires Valid()
    {
      Rails(node.id, node.View().blocked, blk[..])
    }

    constructor (node: Node)
      requires node.Valid() && node.nBlocked == 0
      ensures Valid() && this.node == node && fresh(blk) && Inv(View())
    {
      this.node := node;
      blk := new Slot[MAX_BLOCKED](_ => FREE);
    }

    method SetTimer(v: NodeId, ttl: nat, now: u32)
      requires blk.Length == MAX_BLOCKED
      modifies blk
      ensures blk[..] == Set(old(blk[..]), v, Stamp(now, ttl))
    {
      var e := (now + ttl * MINUTE_MS) % SPAN;
      if e == 0 { e := 1; }
      var free := -1;
      ghost var t := blk[..];
      var i := 0;
      while i < MAX_BLOCKED
        invariant 0 <= i <= MAX_BLOCKED && blk[..] == t
        invariant LiveAt(t, v, i) == LiveAt(t, v, 0)
        invariant free == -1 ==> FreeAt(t, i) == FreeAt(t, 0)
        invariant free != -1 ==> 0 <= free < MAX_BLOCKED && free == FreeAt(t, 0)
      {
        if blk[i].expiry != 0 && blk[i].victim == v {
          blk[i] := blk[i].(expiry := e);
          return;
        }
        if blk[i].expiry == 0 && free < 0 { free := i; }
        i := i + 1;
      }
      if free >= 0 { blk[free] := Slot(v, e); }
    }

    method ClearTimer(v: NodeId)
      requires blk.Length == MAX_BLOCKED
      modifies blk
      ensures blk[..] == Cleared(old(blk[..]), v)
    {
      ghost var t := blk[..];
      for i := 0 to MAX_BLOCKED
        invariant forall k :: 0 <= k < i ==> blk[k] == Cleared(t, v)[k]
        invariant forall k :: i <= k < MAX_BLOCKED ==> blk[k] == t[k]
      {
        if blk[i].victim == v { blk[i] := FREE; }
      }
    }

    /** The BLOCK arm: block the link, then arm its timer. */
    method ApplyBlock(v: NodeId, arg: int, at: nat) returns (ok: bool)
      requires Valid()
      modifies node`nBlocked, node.blocked, node.routes.slots, blk
      ensures Valid() && View() == Apply(old(View()), SignedBlock(v, arg, at))
      ensures ok <==> CanBlock(old(View()).blocked, node.id, v)
      ensures node.View() == Router.Block(old(node.View()), v)
    {
      if v == ZERO_ID || v == node.id { return false; }
      var ttl := if arg > 0 then arg else TTL_DEFAULT_MIN;
      if ttl > TTL_MAX_MIN { ttl := TTL_MAX_MIN; }
      ok := node.BlockLink(v);
      if ok { SetTimer(v, ttl, at % SPAN); }
    }

    method ApplyUnblock(v: NodeId)
      requires Valid()
      modifies node`nBlocked, node.blocked, blk
      ensures Valid() && View() == Apply(old(View()), SignedUnblock(v))
      ensures node.View() == if v == ZERO_ID then old(node.View()) else Router.Unblock(old(node.View()), v)
    {
      if v == ZERO_ID { return; }
      node.UnblockLink(v);
      ClearTimer(v);
    }

    /** Lift every block whose time is up. */
    method SweepTimers(at: nat)
      requires Valid()
      modifies node`nBlocked, node.blocked, blk
      ensures Valid() && View() == Apply(old(View()), Sweep(at))
      ensures node.View() == old(node.View()).(blocked := View().blocked)
    {
      ghost var t, was, state := blk[..], node.View().blocked, node.View();
      var now: u32 := at % SPAN;
      for i := 0 to MAX_BLOCKED
        invariant Valid() && node.View().blocked == SweptList(t, was, i, now)
        invariant node.View() == state.(blocked := node.View().blocked)
        invariant forall k :: 0 <= k < i ==> blk[k] == SweptTable(t, now)[k]
        invariant forall k :: i <= k < MAX_BLOCKED ==> blk[k] == t[k]
      {
        if Overdue(blk[i], now) { Lift(i); }
      }
    }

    method Lift(i: nat)
      requires Valid() && i < MAX_BLOCKED
      modifies node`nBlocked, node.blocked, blk
      ensures Valid() && node.View() == Router.Unblock(old(node.View()), old(blk[i].victim))
      ensures blk[..] == old(blk[..])[i := FREE]
    {
      node.UnblockLink(blk[i].victim);
      blk[i] := FREE;
    }
  }
}
