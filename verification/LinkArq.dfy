/** Hop-by-hop acknowledgement and bounded retry (lib/mesh/link_arq.cpp). */
module LinkArq {
  import opened Basics
  import opened Bytes
  import opened Clock32
  import opened MeshTypes

  const MAX_PENDING: nat := 4
  const FRAME_MAX: nat := 255

  type Frame = seq<u8>

  datatype Pending = Pending(used: bool, seqNo: u8, nextHop: NodeId, retries: u8, nextTx: u32, timeout: u32,
                             frame: Frame)

  const EMPTY: Pending := Pending(false, 0, ZERO_ID, 0, 0, 0, [])

  datatype Arq = Arq(slots: seq<Pending>, acked: nat, dropped: nat)

  // ---------------------------------------------------------- sequence numbers

  /** The next link sequence number: 0 is never used. */
  function NextSeq(c: u8): (n: u8)
    ensures n != 0
  {
    if c == 255 then 1 else c + 1
  }

  function NthSeq(c: u8, n: nat): u8
  {
    if n == 0 then c else NextSeq(NthSeq(c, n - 1))
  }

  lemma {:induction false} NthSeqValue(c: u8, n: nat)
    requires c != 0
    ensures NthSeq(c, n) == 1 + (c - 1 + n) % 255
  {
    if n > 0 { NthSeqValue(c, n - 1); }
  }

  /** Fewer than 255 frames apart, two sequence numbers differ. */
  lemma SeqDistinct(c: u8, i: nat, j: nat)
    requires c != 0 && i < j < i + 255
    ensures NthSeq(c, i) != NthSeq(c, j)
  {
    NthSeqValue(c, i);
    NthSeqValue(c, j);
  }

  // ----------------------------------------------------------------- operations

  function FreeFrom(s: seq<Pending>, i: nat): (r: nat)
    requires i <= |s|
    ensures i <= r <= |s|
    ensures r < |s| ==> !s[r].used
    ensures forall k :: i <= k < r ==> s[k].used
    decreases |s| - i
  {
    if i == |s| || !s[i].used then i else FreeFrom(s, i + 1)
  }

  function SeqFrom(s: seq<Pending>, q: u8, i: nat): (r: nat)
    requires i <= |s|
    ensures i <= r <= |s|
    ensures r < |s| ==> s[r].used && s[r].seqNo == q
    ensures forall k :: i <= k < r ==> !(s[k].used && s[k].seqNo == q)
    decreases |s| - i
  {
    if i == |s| || (s[i].used && s[i].seqNo == q) then i else SeqFrom(s, q, i + 1)
  }

  function Tracked(a: Arq, p: Pending): (Arq, bool)
  {
    var i := FreeFrom(a.slots, 0);
    if |p.frame| > FRAME_MAX || i == |a.slots| then (a, false) else (a.(slots := a.slots[i := p]), true)
  }

  function Acknowledged(a: Arq, q: u8): (Arq, bool)
  {
    var i := SeqFrom(a.slots, q, 0);
    if i == |a.slots| then (a, false)
    else (Arq(a.slots[i := a.slots[i].(used := false)], a.acked + 1, a.dropped), true)
  }

  predicate Due(p: Pending, now: u32)
  {
    p.used && Reached(now, p.nextTx)
  }

  /** One slot through a tick: untouched, handed back once more, or given up. */
  function TickSlot(p: Pending, now: u32): Pending
  {
    if !Due(p, now) then p
    else if p.retries == 0 then p.(used := false)
    else p.(retries := p.retries - 1, nextTx := (now + p.timeout) % SPAN)
  }

  function HandedBack(p: Pending, now: u32): seq<Frame>
  {
    if Due(p, now) && p.retries > 0 then [p.frame] else []
  }

  function GivenUp(p: Pending, now: u32): nat
  {
    if Due(p, now) && p.retries == 0 then 1 else 0
  }

  function TickedSlots(s: seq<Pending>, now: u32): (r: seq<Pending>)
    ensures |r| == |s|
  {
    seq(|s|, i requires 0 <= i < |s| => TickSlot(s[i], now))
  }

  function Resent(s: seq<Pending>, n: nat, now: u32): seq<Frame>
    requires n <= |s|
  {
    if n == 0 then [] else Resent(s, n - 1, now) + HandedBack(s[n - 1], now)
  }

  function Lost(s: seq<Pending>, n: nat, now: u32): nat
    requires n <= |s|
  {
    if n == 0 then 0 else Lost(s, n - 1, now) + GivenUp(s[n - 1], now)
  }

  function Ticked(a: Arq, now: u32): Arq
  {
    Arq(TickedSlots(a.slots, now), a.acked, a.dropped + Lost(a.slots, |a.slots|, now))
  }

  // ------------------------------------------------- what an operation does

  ghost predicate Free(s: seq<Pending>, i: nat)
  {
    i < |s| && !s[i].used
  }

  /** A frame is taken exactly when it fits a slot buffer and a slot is free; the first
      free one then holds it, and nothing else changes. */
  lemma TrackMeaning(a: Arq, p: Pending)
    ensures var (t, ok) := Tracked(a, p);
            && (ok <==> |p.frame| <= 255 && exists i: nat :: Free(a.slots, i))
            && (!ok ==> t == a) && t.acked == a.acked && t.dropped == a.dropped && |t.slots| == |a.slots|
            && (ok ==> exists i: nat ::
                  && Free(a.slots, i) && t.slots[i] == p && (forall k :: 0 <= k < i ==> a.slots[k].used)
                  && forall k :: 0 <= k < |a.slots| && k != i ==> t.slots[k] == a.slots[k])
  {
    var i := FreeFrom(a.slots, 0);
    if i < |a.slots| { assert Free(a.slots, i); }
    assert forall k: nat :: Free(a.slots, k) ==> i <= k;
  }

  ghost predicate Awaits(s: seq<Pending>, i: nat, q: u8)
  {
    i < |s| && s[i].used && s[i].seqNo == q
  }

  /** An acknowledgement counts exactly when some frame awaits it; the first such slot is
      then freed, and nothing else changes. */
  lemma AckMeaning(a: Arq, q: u8)
    ensures var (t, ok) := Acknowledged(a, q);
            && (ok <==> exists i: nat :: Awaits(a.slots, i, q))
            && (!ok ==> t == a) && t.dropped == a.dropped && |t.slots| == |a.slots|
            && (ok ==> t.acked == a.acked + 1)
            && (ok ==> exists i: nat ::
                  && Awaits(a.slots, i, q) && t.slots[i] == a.slots[i].(used := false)
                  && (forall k: nat :: k < i ==> !Awaits(a.slots, k, q))
                  && forall k :: 0 <= k < |a.slots| && k != i ==> t.slots[k] == a.slots[k])
  {
    var i := SeqFrom(a.slots, q, 0);
    if i < |a.slots| { assert Awaits(a.slots, i, q); }
    assert forall k: nat :: Awaits(a.slots, k, q) ==> i <= k;
  }

  /** The slot holds a frame whose time, compared on the wrapping clock, has come. */
  ghost predicate Elapsed(p: Pending, now: u32)
  {
    p.used && (now - p.nextTx) % 0x1_0000_0000 < 0x8000_0000
  }

  /** A tick touches the elapsed slots only: the last retry frees the slot, an earlier one
      is spent and arms the timeout again. */
  lemma TickMeaning(a: Arq, now: u32, i: nat)
    requires i < |a.slots|
    ensures var p, q := a.slots[i], Ticked(a, now).slots[i];
            && (!Elapsed(p, now) ==> q == p)
            && (Elapsed(p, now) && p.retries == 0 ==> q == p.(used := false))
            && (Elapsed(p, now) && p.retries > 0 ==>
                  q == p.(retries := p.retries - 1, nextTx := (now + p.timeout) % 0x1_0000_0000))
    ensures Ticked(a, now).acked == a.acked && |Ticked(a, now).slots| == |a.slots|
  {
  }

  /** Handed back are the frames of the elapsed slots with retries left, in slot order. */
  lemma {:induction false} ResentMeaning(s: seq<Pending>, n: nat, now: u32) returns (at: seq<nat>)
    requires n <= |s|
    ensures |at| == |Resent(s, n, now)|
    ensures forall k :: 0 <= k < |at| ==> at[k] < n && Resent(s, n, now)[k] == s[at[k]].frame
    ensures forall j, k :: 0 <= j < k < |at| ==> at[j] < at[k]
    ensures forall i: nat :: i in at <==> i < n && Elapsed(s[i], now) && s[i].retries > 0
  {
    at := [];
    if n > 0 {
      at := ResentMeaning(s, n - 1, now);
      if Elapsed(s[n - 1], now) && s[n - 1].retries > 0 { at := at + [n - 1]; }
    }
  }

  // --------------------------------------------------------------- conservation

  function Count(s: seq<Pending>, n: nat): nat
    requires n <= |s|
  {
    if n == 0 then 0 else Count(s, n - 1) + if s[n - 1].used then 1 else 0
  }

  lemma {:induction false} CountSet(s: seq<Pending>, i: nat, p: Pending, n: nat)
    requires i < |s| && n <= |s|
    ensures Count(s[i := p], n) + (if i < n && s[i].used then 1 else 0)
            == Count(s, n) + if i < n && p.used then 1 else 0
  {
    if n > 0 { CountSet(s, i, p, n - 1); }
  }

  lemma {:induction false} CountTicked(s: seq<Pending>, n: nat, now: u32)
    requires n <= |s|
    ensures Count(TickedSlots(s, now), n) + Lost(s, n, now) == Count(s, n)
  {
    if n > 0 { CountTicked(s, n - 1, now); }
  }

  datatype Event = Track(p: Pending) | Ack(seqNo: u8) | Tick(at: nat)

  function Apply(a: Arq, e: Event): (r: Arq)
    ensures |r.slots| == |a.slots|
  {
    match e
    case Track(p) => Tracked(a, p).0
    case Ack(q) => Acknowledged(a, q).0
    case Tick(at) => Ticked(a, at % SPAN)
  }

  function Taken(a: Arq, e: Event): nat
  {
    if e.Track? && Tracked(a, e.p).1 then 1 else 0
  }

  function Outstanding(a: Arq): nat
  {
    Count(a.slots, |a.slots|)
  }

  function Run(a: Arq, es: seq<Event>): Arq
  {
    if |es| == 0 then a else Apply(Run(a, es[..|es| - 1]), es[|es| - 1])
  }

  /** Frames accepted for tracking during a run. */
  function Accepted(a: Arq, es: seq<Event>): nat
  {
    if |es| == 0 then 0 else Accepted(a, es[..|es| - 1]) + Taken(Run(a, es[..|es| - 1]), es[|es| - 1])
  }

  lemma StepConserves(a: Arq, e: Event)
    requires e.Track? ==> e.p.used
    ensures var t := Apply(a, e);
            t.acked + t.dropped + Outstanding(t) == a.acked + a.dropped + Outstanding(a) + Taken(a, e)
  {
    match e
    case Track(p) =>
      var i := FreeFrom(a.slots, 0);
      if Tracked(a, p).1 { CountSet(a.slots, i, p, |a.slots|); }
    case Ack(q) =>
      var i := SeqFrom(a.slots, q, 0);
      if i < |a.slots| { CountSet(a.slots, i, a.slots[i].(used := false), |a.slots|); }
    case Tick(at) => CountTicked(a.slots, |a.slots|, at % SPAN);
  }

  /** In every run each accepted frame is acknowledged, given up or still pending. */
  lemma {:induction false} Conservation(a: Arq, es: seq<Event>)
    requires forall i :: 0 <= i < |es| ==> es[i].Track? ==> es[i].p.used
    ensures var t := Run(a, es);
            t.acked + t.dropped + Outstanding(t) == a.acked + a.dropped + Outstanding(a) + Accepted(a, es)
  {
    if |es| > 0 {
      Conservation(a, es[..|es| - 1]);
      StepConserves(Run(a, es[..|es| - 1]), es[|es| - 1]);
    }
  }

  // ------------------------------------------------------------- bounded retry

  /** The wrapped comparison agrees with true time inside the half range. */
  lemma DueExact(p: Pending, due: nat, at: nat)
    requires p.used && p.nextTx == due % SPAN && -HALF <= at - due < HALF
    ensures Due(p, at % SPAN) <==> at >= due
  {
    ReachedExact(at, due);
  }

  /** What becomes of the frame in a slot: whether it is still pending, and how often and
      as what it was handed back.  A slot freed along the way is no longer its own. */
  function Fate(a: Arq, i: nat, es: seq<Event>): (bool, seq<Frame>)
    requires i < |a.slots|
    decreases |es|
  {
    if !a.slots[i].used then (false, [])
    else if |es| == 0 then (true, [])
    else
      var now := if es[0].Tick? then HandedBack(a.slots[i], es[0].at % SPAN) else [];
      var (alive, later) := Fate(Apply(a, es[0]), i, es[1..]);
      (alive, now + later)
  }

  /** Bounded retry, in every run whatever: a frame is handed back at most as often as it
      has retries, and always unchanged. */
  lemma {:induction false} RetryBounded(a: Arq, i: nat, es: seq<Event>)
    requires i < |a.slots|
    ensures |Fate(a, i, es).1| <= a.slots[i].retries
    ensures forall f :: f in Fate(a, i, es).1 ==> f == a.slots[i].frame
    decreases |es|
  {
    if a.slots[i].used && |es| > 0 {
      RetryBounded(Apply(a, es[0]), i, es[1..]);
    }
  }

  /** An acknowledgement that frees slot i. */
  predicate Frees(a: Arq, i: nat, e: Event)
  {
    e.Ack? && SeqFrom(a.slots, e.seqNo, 0) == i
  }

  ghost predicate NeverAcked(a: Arq, i: nat, es: seq<Event>)
    requires i < |a.slots|
    decreases |es|
  {
    |es| > 0 ==> !Frees(a, i, es[0]) && NeverAcked(Apply(a, es[0]), i, es[1..])
  }

  /** How many ticks of a run find the frame due: the first at or after its time, then
      each that comes at least a timeout after the one before. */
  function Rounds(es: seq<Event>, due: nat, timeout: nat): nat
    decreases |es|
  {
    if |es| == 0 then 0
    else if es[0].Tick? && es[0].at >= due then 1 + Rounds(es[1..], es[0].at + timeout, timeout)
    else Rounds(es[1..], due, timeout)
  }

  function Copies(f: Frame, n: nat): (s: seq<Frame>)
    ensures |s| == n && forall i :: 0 <= i < n ==> s[i] == f
  {
    seq(n, i => f)
  }

  /** Bounded retry, exactly: unacknowledged, a frame is handed back unchanged once for
      each of the first `retries` rounds, and is still pending just when there have been
      no more rounds than that. */
  lemma {:induction false} RetryExact(a: Arq, i: nat, es: seq<Event>, base: nat, due: nat)
    requires i < |a.slots| && a.slots[i].used && a.slots[i].nextTx == due % SPAN
    requires a.slots[i].timeout < HALF && base <= due <= base + HALF + a.slots[i].timeout
    requires Ordered(es, due - a.slots[i].timeout, base + HALF) && NeverAcked(a, i, es)
    ensures var p, n := a.slots[i], Rounds(es, due, a.slots[i].timeout);
            Fate(a, i, es) == (n <= p.retries, Copies(p.frame, Min(n, p.retries)))
    decreases |es|
  {
    var p := a.slots[i];
    if |es| == 0 {
      assert Copies(p.frame, 0) == [];
    } else {
      var e, b := es[0], Apply(a, es[0]);
      if e.Tick? && e.at >= due {
        DueExact(p, due, e.at);
        AfterDelay(e.at, p.timeout);
        if p.retries > 0 {
          RetryExact(b, i, es[1..], base, e.at + p.timeout);
          OneMore(p.frame, Rounds(es[1..], e.at + p.timeout, p.timeout), p.retries);
        } else {
          LastRound(a, i, es);
        }
      } else {
        if e.Tick? {
          DueExact(p, due, e.at);
          OrderedEarlier(es[1..], e.at, due - p.timeout, base + HALF);
        }
        RetryExact(b, i, es[1..], base, due);
        NoRound(a, i, es);
      }
    }
  }

  lemma LastRound(a: Arq, i: nat, es: seq<Event>)
    requires i < |a.slots| && |es| > 0 && es[0].Tick? && Due(a.slots[i], es[0].at % SPAN) && a.slots[i].retries == 0
    ensures Fate(a, i, es) == (false, Copies(a.slots[i].frame, 0))
  {
    assert Fate(Apply(a, es[0]), i, es[1..]) == (false, []);
    assert Fate(a, i, es).1 == Copies(a.slots[i].frame, 0);
  }

  lemma NoRound(a: Arq, i: nat, es: seq<Event>)
    requires i < |a.slots| && |es| > 0 && a.slots[i].used && (es[0].Tick? ==> !Due(a.slots[i], es[0].at % SPAN))
    ensures Fate(a, i, es) == Fate(Apply(a, es[0]), i, es[1..])
  {
    var later := Fate(Apply(a, es[0]), i, es[1..]).1;
    assert [] + later == later;
  }

  lemma OneMore(f: Frame, n: nat, r: nat)
    requires r > 0
    ensures [f] + Copies(f, Min(n, r - 1)) == Copies(f, Min(n + 1, r))
  {
  }

  /** Ticks come in time order, none before lo and all before hi. */
  ghost predicate Ordered(es: seq<Event>, lo: int, hi: int)
    decreases |es|
  {
    |es| > 0 ==>
      if es[0].Tick? then lo <= es[0].at < hi && Ordered(es[1..], es[0].at, hi) else Ordered(es[1..], lo, hi)
  }

  lemma {:induction false} OrderedEarlier(es: seq<Event>, lo: int, earlier: int, hi: int)
    requires Ordered(es, lo, hi) && earlier <= lo
    ensures Ordered(es, earlier, hi)
    decreases |es|
  {
    if |es| > 0 && !es[0].Tick? { OrderedEarlier(es[1..], lo, earlier, hi); }
  }

  lemma {:induction false} OrderedAt(es: seq<Event>, lo: int, hi: int, k: nat)
    requires Ordered(es, lo, hi) && k < |es| && es[k].Tick?
    ensures lo <= es[k].at < hi
    decreases |es|
  {
    if k > 0 { OrderedAt(es[1..], if es[0].Tick? then es[0].at else lo, hi, k - 1); }
  }

  /** A run that holds n ticks, the first at or after the due time and each at least a
      timeout after the last, has at least n rounds, whatever other ticks there are. */
  ghost predicate Spaced(es: seq<Event>, picks: seq<nat>, due: nat, timeout: nat)
  {
    && (forall k :: 0 <= k < |picks| ==> picks[k] < |es| && es[picks[k]].Tick?)
    && (forall j, k :: 0 <= j < k < |picks| ==> picks[j] < picks[k])
    && (forall k :: 0 < k < |picks| ==> es[picks[k - 1]].at + timeout <= es[picks[k]].at)
    && (|picks| > 0 ==> due <= es[picks[0]].at)
  }

  lemma {:induction false} SpacedRounds(es: seq<Event>, picks: seq<nat>, due: nat, timeout: nat, lo: int, hi: int)
    requires Spaced(es, picks, due, timeout) && Ordered(es, lo, hi)
    ensures Rounds(es, due, timeout) >= |picks|
    decreases |es|
  {
    if |picks| > 0 {
      var rest := es[1..];
      if es[0].Tick? && es[0].at >= due {
        var later := AfterFirst(es, picks, due, timeout, lo, hi);
        SpacedRounds(rest, later, es[0].at + timeout, timeout, es[0].at, hi);
      } else {
        var later := Later(es, picks, due, timeout);
        SpacedRounds(rest, later, due, timeout, if es[0].Tick? then es[0].at else lo, hi);
      }
    }
  }

  /** The first round is no later than the first pick, so the remaining picks still fit. */
  lemma AfterFirst(es: seq<Event>, picks: seq<nat>, due: nat, timeout: nat, lo: int, hi: int) returns (later: seq<nat>)
    requires Spaced(es, picks, due, timeout) && Ordered(es, lo, hi) && |picks| > 0 && es[0].Tick? && es[0].at >= due
    ensures |later| == |picks| - 1 && Spaced(es[1..], later, es[0].at + timeout, timeout)
  {
    later := seq(|picks| - 1, k requires 0 <= k < |picks| - 1 => picks[k + 1] - 1);
    assert forall k :: 0 <= k < |later| ==> es[1..][later[k]] == es[picks[k + 1]];
    if picks[0] > 0 { OrderedAt(es[1..], es[0].at, hi, picks[0] - 1); }
  }

  lemma Later(es: seq<Event>, picks: seq<nat>, due: nat, timeout: nat) returns (later: seq<nat>)
    requires Spaced(es, picks, due, timeout) && |picks| > 0 && !(es[0].Tick? && es[0].at >= due)
    ensures |later| == |picks| && Spaced(es[1..], later, due, timeout)
  {
    assert forall k :: 0 <= k < |picks| ==> picks[k] > 0;
    later := seq(|picks|, k requires 0 <= k < |picks| => picks[k] - 1);
    assert forall k :: 0 <= k < |later| ==> es[1..][later[k]] == es[picks[k]];
  }

  /** A frame still pending at the end was never acknowledged. */
  lemma {:induction false} PendingUnacked(a: Arq, i: nat, es: seq<Event>)
    requires i < |a.slots| && Fate(a, i, es).0
    ensures NeverAcked(a, i, es)
    decreases |es|
  {
    if |es| > 0 {
      var b := Apply(a, es[0]);
      PendingUnacked(b, i, es[1..]);
      assert b.slots[i].used;
    }
  }

  /** After max_retries + 1 ticks spaced at least the timeout apart, a tracked frame has
      been acknowledged or given up; unless acknowledged it was resent max_retries times. */
  lemma GivenUpInTime(a: Arq, i: nat, es: seq<Event>, base: nat, due: nat, picks: seq<nat>)
    requires i < |a.slots| && a.slots[i].used && a.slots[i].nextTx == due % SPAN
    requires a.slots[i].timeout < HALF && base <= due <= base + HALF + a.slots[i].timeout
    requires Ordered(es, due - a.slots[i].timeout, base + HALF)
    requires Spaced(es, picks, due, a.slots[i].timeout) && |picks| == a.slots[i].retries + 1
    ensures !Fate(a, i, es).0
    ensures NeverAcked(a, i, es) ==> Fate(a, i, es) == (false, Copies(a.slots[i].frame, a.slots[i].retries))
  {
    SpacedRounds(es, picks, due, a.slots[i].timeout, due - a.slots[i].timeout, base + HALF);
    if Fate(a, i, es).0 { PendingUnacked(a, i, es); }
    if NeverAcked(a, i, es) { RetryExact(a, i, es, base, due); }
  }

  // --------------------------------------------------------------------- the table

  class LinkArq {
    const slots: array<Pending>
    var seqCtr: u8
    var acked: nat
    var dropped: nat

    ghost function View(): Arq
      reads this, slots
    {
      Arq(slots[..], acked, dropped)
    }

    constructor ()
      ensures slots.Length == MAX_PENDING && fresh(slots) && Outstanding(View()) == acked == dropped == 0
    {
      slots := new Pending[MAX_PENDING](_ => EMPTY);
      seqCtr, acked, dropped := 0, 0, 0;
      new;
      NoneUsed(slots[..], MAX_PENDING);
    }

    static lemma {:induction false} NoneUsed(s: seq<Pending>, n: nat)
      requires n <= |s| && forall i :: 0 <= i < n ==> !s[i].used
      ensures Count(s, n) == 0
    {
      if n > 0 { NoneUsed(s, n - 1); }
    }

    method TakeSeq() returns (q: u8)
      modifies `seqCtr
      ensures q == seqCtr == NextSeq(old(seqCtr)) && q == if old(seqCtr) == 255 then 1 else old(seqCtr) + 1
    {
      seqCtr := (seqCtr + 1) % 0x100;
      if seqCtr == 0 { seqCtr := (seqCtr + 1) % 0x100; }
      q := seqCtr;
    }

    method Track(q: u8, nextHop: NodeId, frame: Frame, now: u32, timeout: u32, maxRetries: u8) returns (ok: bool)
      requires slots.Length == MAX_PENDING
      modifies slots
      ensures (View(), ok) ==
              Tracked(old(View()), Pending(true, q, nextHop, maxRetries, (now + timeout) % SPAN, timeout, frame))
    {
      if |frame| > FRAME_MAX { return false; }
      var i := 0;
      while i < MAX_PENDING && slots[i].used
        invariant 0 <= i <= MAX_PENDING && FreeFrom(slots[..], i) == FreeFrom(slots[..], 0)
      {
        i := i + 1;
      }
      if i == MAX_PENDING { return false; }
      slots[i] := Pending(true, q, nextHop, maxRetries, (now + timeout) % SPAN, timeout, frame);
      ok := true;
    }

    method OnAck(q: u8) returns (ok: bool)
      requires slots.Length == MAX_PENDING
      modifies this`acked, slots
      ensures (View(), ok) == Acknowledged(old(View()), q)
    {
      var i := 0;
      while i < MAX_PENDING
        invariant 0 <= i <= MAX_PENDING && SeqFrom(slots[..], q, i) == SeqFrom(slots[..], q, 0)
        invariant slots[..] == old(slots[..]) && acked == old(acked)
      {
        if slots[i].used && slots[i].seqNo == q {
          slots[i] := slots[i].(used := false);
          acked := acked + 1;
          return true;
        }
        i := i + 1;
      }
      ok := false;
    }

    /** Hand back every due frame with retries left, in slot order, and give up the rest. */
    method TickAll(now: u32) returns (lost: nat, resent: seq<Frame>)
      requires slots.Length == MAX_PENDING
      modifies this`dropped, slots
      ensures View() == Ticked(old(View()), now)
      ensures lost == Lost(old(slots[..]), MAX_PENDING, now) && resent == Resent(old(slots[..]), MAX_PENDING, now)
    {
      lost, resent := 0, [];
      ghost var s := slots[..];
      for i := 0 to MAX_PENDING
        invariant lost == Lost(s, i, now) && resent == Resent(s, i, now) && dropped == old(dropped) + lost
        invariant forall k :: 0 <= k < i ==> slots[k] == TickSlot(s[k], now)
        invariant forall k :: i <= k < MAX_PENDING ==> slots[k] == s[k]
      {
        var p := slots[i];
        if p.used && Reached(now, p.nextTx) {
          if p.retries == 0 {
            slots[i] := p.(used := false);
            dropped := dropped + 1;
            lost := lost + 1;
          } else {
            slots[i] := p.(retries := p.retries - 1, nextTx := (now + p.timeout) % SPAN);
            resent := resent + [p.frame];
          }
        }
      }
    }

    method PendingCount() returns (c: nat)
      ensures c == Count(slots[..], slots.Length)
    {
      c := 0;
      for i := 0 to slots.Length
        invariant c == Count(slots[..], i)
      {
        if slots[i].used { c := c + 1; }
      }
    }
  }
}
