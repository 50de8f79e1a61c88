/** The locator cache (lib/mesh/locator_dir.cpp): 32 slots, ordered registrations,
    expiry on a wrapping 32-bit clock and eviction of the least recently touched. */
module LocatorDir {
  import opened Basics
  import opened Bytes
  import opened Clock32

  const CAP: nat := 32
  const ID_MAX: nat := 16

  type Id = seq<u8>

  datatype Entry = Entry(used: bool, id: Id, loc: nat, epoch: u16, seqNo: u16, expiry: u32, touched: u32)

  datatype Dir = Dir(es: seq<Entry>, clock: u32)

  // ------------------------------------------------------------- wrapped numbers

  /** Serial comparison of section 3.2 of RFC 1982 on 16 bits: the signed difference is positive. */
  function Newer(a: u16, b: u16): bool
  {
    0 < (a - b) % 0x1_0000 < 0x8000
  }

  /** Two numbers less than half the space apart are ordered as they are unwrapped, and
      a number is never newer than itself nor two numbers newer than each other. */
  lemma NewerExact(a: int, b: int)
    ensures -0x8000 < a - b < 0x8000 ==> (Newer(a % 0x1_0000, b % 0x1_0000) <==> a > b)
    ensures !(Newer(a % 0x1_0000, b % 0x1_0000) && Newer(b % 0x1_0000, a % 0x1_0000))
    ensures Newer(a % 0x1_0000, b % 0x1_0000) <==> 0 < (a - b) % 0x1_0000 < 0x8000
  {
  }

  function Expired(e: Entry, now: u32): bool
  {
    Reached(now, e.expiry)
  }

  /** The wrapped test agrees with true time exactly when the two instants are within the
      half range of each other; beyond it an expired binding reads as live again. */
  lemma ExpiredExact(e: Entry, due: int, at: int)
    requires e.expiry == due % SPAN
    ensures Expired(e, at % SPAN) <==> (at - due) % SPAN < HALF
    ensures -HALF <= at - due < HALF ==> (Expired(e, at % SPAN) <==> at >= due)
    ensures HALF <= at - due < SPAN ==> !Expired(e, at % SPAN)
  {
    ReachedExact(at, due);
  }

  // ------------------------------------------------------------------ searching

  predicate Matches(e: Entry, id: Id)
  {
    e.used && e.id == id
  }

  function FindFrom(es: seq<Entry>, id: Id, i: nat): (r: int)
    requires i <= |es|
    ensures r == -1 || i <= r < |es|
    decreases |es| - i
  {
    if i == |es| then -1 else if Matches(es[i], id) then i else FindFrom(es, id, i + 1)
  }

  lemma {:induction false} FindMeaning(es: seq<Entry>, id: Id, i: nat)
    requires i <= |es|
    ensures FindFrom(es, id, i) == -1 <==> forall k :: i <= k < |es| ==> !Matches(es[k], id)
    ensures FindFrom(es, id, i) >= 0 ==> Matches(es[FindFrom(es, id, i)], id)
    decreases |es| - i
  {
    if i < |es| { FindMeaning(es, id, i + 1); }
  }

  /** The binding cached for an identifier: the cache as a map. */
  function Cached(es: seq<Entry>, id: Id): Option<Entry>
  {
    var i := FindFrom(es, id, 0);
    if i < 0 then None else Some(es[i])
  }

  ghost predicate Distinct(es: seq<Entry>, i: nat, k: nat)
    requires i < |es| && k < |es|
  {
    es[i].used && es[k].used && i != k ==> es[i].id != es[k].id && es[i].touched != es[k].touched
  }

  /** No identifier is used twice, and stamps are distinct and not in the future. */
  ghost predicate Ok(d: Dir)
  {
    && |d.es| == CAP
    && (forall i, k :: 0 <= i < CAP && 0 <= k < CAP ==> Distinct(d.es, i, k))
    && (forall i :: 0 <= i < CAP ==> d.es[i].used ==> d.es[i].touched <= d.clock && 1 <= |d.es[i].id| <= ID_MAX)
  }

  lemma CachedAt(d: Dir, i: nat)
    requires Ok(d) && i < CAP && d.es[i].used
    ensures FindFrom(d.es, d.es[i].id, 0) == i && Cached(d.es, d.es[i].id) == Some(d.es[i])
  {
    var k := FindFrom(d.es, d.es[i].id, 0);
    FindMeaning(d.es, d.es[i].id, 0);
    assert Matches(d.es[i], d.es[i].id);
    assert Distinct(d.es, i, k);
  }

  // ----------------------------------------------------------------- allocation

  function FirstFree(es: seq<Entry>, i: nat): (r: int)
    requires i <= |es|
    ensures r == -1 || i <= r < |es|
    decreases |es| - i
  {
    if i == |es| then -1 else if !es[i].used then i else FirstFree(es, i + 1)
  }

  function LastExpired(es: seq<Entry>, n: nat, now: u32): (r: int)
    requires n <= |es|
    ensures r == -1 || 0 <= r < n
  {
    if n == 0 then -1 else if Expired(es[n - 1], now) then n - 1 else LastExpired(es, n - 1, now)
  }

  function LeastTouched(es: seq<Entry>, n: nat): (r: int)
    requires n <= |es|
    ensures r == -1 <==> n == 0
    ensures n > 0 ==> 0 <= r < n
  {
    if n == 0 then -1
    else
      var r := LeastTouched(es, n - 1);
      if r < 0 || es[n - 1].touched < es[r].touched then n - 1 else r
  }

  function AllocSlot(es: seq<Entry>, now: u32): (r: nat)
    requires |es| > 0
    ensures r < |es|
  {
    if FirstFree(es, 0) >= 0 then FirstFree(es, 0)
    else if LastExpired(es, |es|, now) >= 0 then LastExpired(es, |es|, now)
    else LeastTouched(es, |es|)
  }

  lemma {:induction false} FirstFreeMeaning(es: seq<Entry>, i: nat)
    requires i <= |es|
    ensures FirstFree(es, i) >= 0 ==> !es[FirstFree(es, i)].used
    ensures forall k :: i <= k < (if FirstFree(es, i) < 0 then |es| else FirstFree(es, i)) ==> es[k].used
    decreases |es| - i
  {
    if i < |es| { FirstFreeMeaning(es, i + 1); }
  }

  lemma {:induction false} LastExpiredMeaning(es: seq<Entry>, n: nat, now: u32)
    requires n <= |es|
    ensures LastExpired(es, n, now) >= 0 ==> Expired(es[LastExpired(es, n, now)], now)
    ensures forall k :: LastExpired(es, n, now) < k < n && 0 <= k ==> !Expired(es[k], now)
  {
    if n > 0 { LastExpiredMeaning(es, n - 1, now); }
  }

  lemma {:induction false} LeastTouchedMeaning(es: seq<Entry>, n: nat)
    requires 0 < n <= |es|
    ensures forall k :: 0 <= k < n ==> es[LeastTouched(es, n)].touched <= es[k].touched
  {
    if n > 1 { LeastTouchedMeaning(es, n - 1); }
  }

  /** The first free slot, else in a full table the last expired one; a live binding loses
      its slot only when all are live, and then it is the one touched longest ago. */
  ghost predicate FairVictim(es: seq<Entry>, v: nat, now: u32)
    requires v < |es|
  {
    || (!es[v].used && forall k :: 0 <= k < v ==> es[k].used)
    || ((forall k :: 0 <= k < |es| ==> es[k].used) && Expired(es[v], now)
        && forall k :: v < k < |es| ==> !Expired(es[k], now))
    || forall k :: 0 <= k < |es| ==> es[k].used && !Expired(es[k], now) && es[v].touched <= es[k].touched
  }

  lemma AllocFair(es: seq<Entry>, now: u32)
    requires |es| > 0
    ensures FairVictim(es, AllocSlot(es, now), now)
  {
    FirstFreeMeaning(es, 0);
    LastExpiredMeaning(es, |es|, now);
    LeastTouchedMeaning(es, |es|);
  }

  // ----------------------------------------------------------------- operations

  function Tick(clock: u32): u32
  {
    (clock + 1) % SPAN
  }

  function ExpiryAt(now: u32, ttl: u16): u32
  {
    (now + ttl * 1000) % SPAN
  }

  function Accepts(e: Entry, epoch: u16, seqNo: u16, now: u32): bool
  {
    Expired(e, now) || (epoch == e.epoch && Newer(seqNo, e.seqNo)) || epoch != e.epoch
  }

  function Upserted(d: Dir, id: Id, loc: nat, epoch: u16, seqNo: u16, ttl: u16, now: u32): (Dir, bool)
    requires |d.es| == CAP
  {
    if |id| == 0 || |id| > ID_MAX then (d, false)
    else
      var i := FindFrom(d.es, id, 0);
      if i >= 0 && !Accepts(d.es[i], epoch, seqNo, now) then (d, false)
      else
        var s := if i >= 0 then i else AllocSlot(d.es, now);
        (Dir(d.es[s := Entry(true, id, loc, epoch, seqNo, ExpiryAt(now, ttl), Tick(d.clock))], Tick(d.clock)), true)
  }

  function LookedUp(d: Dir, id: Id, now: u32): (Dir, Option<Entry>)
  {
    var i := FindFrom(d.es, id, 0);
    if i < 0 then (d, None)
    else if Expired(d.es[i], now) then (d.(es := d.es[i := d.es[i].(used := false)]), None)
    else (Dir(d.es[i := d.es[i].(touched := Tick(d.clock))], Tick(d.clock)), Some(d.es[i]))
  }

  function Removed(d: Dir, id: Id): (Dir, bool)
  {
    var i := FindFrom(d.es, id, 0);
    if i < 0 then (d, false) else (d.(es := d.es[i := d.es[i].(used := false)]), true)
  }

  /** Writing one slot: every identifier but the old and the new one keeps its binding. */
  lemma SlotWritten(d: Dir, i: nat, e: Entry, x: Id)
    requires Ok(d) && i < CAP && Ok(Dir(d.es[i := e], if d.clock <= e.touched then e.touched else d.clock))
    requires !(e.used && e.id == x) && !(d.es[i].used && d.es[i].id == x)
    ensures Cached(d.es[i := e], x) == Cached(d.es, x)
  {
    var c := if d.clock <= e.touched then e.touched else d.clock;
    var k := FindFrom(d.es, x, 0);
    FindMeaning(d.es, x, 0);
    FindMeaning(d.es[i := e], x, 0);
    if k >= 0 {
      assert Matches(d.es[i := e][k], x);
      CachedAt(Dir(d.es[i := e], c), k);
    } else {
      var es := d.es[i := e];
      forall j | 0 <= j < CAP
        ensures !Matches(es[j], x)
      {
        assert !Matches(d.es[j], x);
      }
    }
  }

  lemma FreshStamp(d: Dir, i: nat, e: Entry)
    requires Ok(d) && i < CAP && d.clock < SPAN - 1 && e.used && e.touched == d.clock + 1 && 1 <= |e.id| <= ID_MAX
    requires forall k :: 0 <= k < CAP && k != i ==> !Matches(d.es[k], e.id)
    ensures Ok(Dir(d.es[i := e], d.clock + 1))
  {
    var es := d.es[i := e];
    forall k, m | 0 <= k < CAP && 0 <= m < CAP
      ensures Distinct(es, k, m)
    {
      assert Distinct(d.es, k, m) && (k != i ==> !Matches(d.es[k], e.id)) && (m != i ==> !Matches(d.es[m], e.id));
    }
  }

  lemma Cleared(d: Dir, i: nat)
    requires Ok(d) && i < CAP
    ensures Ok(d.(es := d.es[i := d.es[i].(used := false)]))
  {
    var es := d.es[i := d.es[i].(used := false)];
    forall k, m | 0 <= k < CAP && 0 <= m < CAP
      ensures Distinct(es, k, m)
    {
      assert Distinct(d.es, k, m);
    }
  }

  /** A registration is taken exactly when the identifier is well-formed and either new,
      or its lifetime over by the signed clock difference, or of another boot, or of the
      same boot with a sequence number less than half the space ahead; it then is the
      binding, with the freshest stamp, and the only other identifier that can be affected
      is a fair victim. */
  lemma UpsertMeaning(d: Dir, id: Id, loc: nat, epoch: u16, seqNo: u16, ttl: u16, now: u32)
    requires Ok(d) && d.clock < SPAN - 1
    ensures var (t, ok) := Upserted(d, id, loc, epoch, seqNo, ttl, now);
            var had := Cached(d.es, id);
            && Ok(t) && (!ok ==> t == d)
            && (ok <==>
                  && 1 <= |id| <= 16
                  && (had.Some? ==>
                        || (now - had.value.expiry) % 0x1_0000_0000 < 0x8000_0000
                        || epoch != had.value.epoch
                        || (epoch == had.value.epoch && 0 < (seqNo - had.value.seqNo) % 0x1_0000 < 0x8000)))
            && (ok ==> Cached(t.es, id) ==
                       Some(Entry(true, id, loc, epoch, seqNo, (now + ttl * 1000) % 0x1_0000_0000, d.clock + 1)))
            && (forall x :: x != id && (had.Some? || Cached(t.es, x).Some?) ==> Cached(t.es, x) == Cached(d.es, x))
            && (forall x :: x != id && Cached(t.es, x) != Cached(d.es, x) ==> Evicted(d, x, now))
  {
    var (t, ok) := Upserted(d, id, loc, epoch, seqNo, ttl, now);
    FindMeaning(d.es, id, 0);
    if ok {
      var i := FindFrom(d.es, id, 0);
      var s := if i >= 0 then i else AllocSlot(d.es, now);
      forall k | 0 <= k < CAP && k != s
        ensures !Matches(d.es[k], id)
      {
        if i >= 0 { assert Distinct(d.es, k, i); }
      }
      FreshStamp(d, s, t.es[s]);
      CachedAt(t, s);
      AllocFair(d.es, now);
      forall x | x != id
        ensures if d.es[s].used && d.es[s].id == x then Cached(t.es, x) == None && i < 0 && Evicted(d, x, now)
                else Cached(t.es, x) == Cached(d.es, x)
      {
        if d.es[s].used && d.es[s].id == x {
          VictimGone(d, t, s, x);
          CachedAt(d, s);
        } else {
          SlotWritten(d, s, t.es[s], x);
        }
      }
    }
  }

  /** In true time: over a binding registered at `from` under the sequence number s0, a
      registration less than half the number space and half the clock range away is taken
      exactly when the lifetime is over, the node rebooted or its number is greater.  So
      another boot always replaces the binding, and a stale number never does before its
      lifetime is over. */
  lemma RegistrationOrder(d: Dir, reg: Op, had: Entry, s0: int, s: int, from: nat, ttl0: u16)
    requires Ok(d) && d.clock < SPAN - 1 && reg.Upsert? && Cached(d.es, reg.id) == Some(had)
    requires had.expiry == (from + ttl0 * 1000) % SPAN && from <= reg.at < from + ttl0 * 1000 + HALF
    requires had.seqNo == s0 % 0x1_0000 && reg.seqNo == s % 0x1_0000 && -0x8000 < s - s0 < 0x8000
    ensures var taken := reg.at >= from + ttl0 * 1000 || reg.epoch != had.epoch || s > s0;
            Cached(Step(d, reg).es, reg.id) ==
              if taken
              then Some(Entry(true, reg.id, reg.loc, reg.epoch, reg.seqNo, (reg.at + reg.ttl * 1000) % SPAN,
                              d.clock + 1))
              else Some(had)
  {
    FindMeaning(d.es, reg.id, 0);
    UpsertMeaning(d, reg.id, reg.loc, reg.epoch, reg.seqNo, reg.ttl, reg.at % SPAN);
    ExpiredExact(had, from + ttl0 * 1000, reg.at);
    NewerExact(s, s0);
    AfterDelay(reg.at, reg.ttl * 1000);
  }

  lemma VictimGone(d: Dir, t: Dir, s: nat, x: Id)
    requires Ok(d) && s < CAP && |t.es| == CAP && d.es[s].used && d.es[s].id == x && t.es[s].id != x
    requires forall k :: 0 <= k < CAP && k != s ==> t.es[k] == d.es[k]
    ensures Cached(t.es, x) == None
  {
    FindMeaning(t.es, x, 0);
    forall k | 0 <= k < CAP
      ensures !Matches(t.es[k], x)
    {
      assert Distinct(d.es, k, s);
    }
  }

  /** What eviction of a binding presupposes: a full table, and that it was expired or
      all were live and it was the least recently touched. */
  ghost predicate Evicted(d: Dir, x: Id, now: u32)
    requires Ok(d)
  {
    var i := FindFrom(d.es, x, 0);
    i >= 0 && (forall k :: 0 <= k < CAP ==> d.es[k].used)
    && (Expired(d.es[i], now)
        || forall k :: 0 <= k < CAP ==> !Expired(d.es[k], now) && d.es[i].touched <= d.es[k].touched)
  }

  /** A lookup reports exactly the cached binding unless it has expired, drops it then,
      and otherwise only refreshes its stamp; no other identifier is touched. */
  lemma LookupMeaning(d: Dir, id: Id, now: u32)
    requires Ok(d) && d.clock < SPAN - 1
    ensures var (t, got) := LookedUp(d, id, now);
            var had := Cached(d.es, id);
            && Ok(t)
            && got == (if had.Some? && (now - had.value.expiry) % 0x1_0000_0000 >= 0x8000_0000 then had else None)
            && Cached(t.es, id) == (if got.Some? then Some(got.value.(touched := d.clock + 1)) else None)
            && forall x :: x != id ==> Cached(t.es, x) == Cached(d.es, x)
  {
    var (t, got) := LookedUp(d, id, now);
    var i := FindFrom(d.es, id, 0);
    FindMeaning(d.es, id, 0);
    if i >= 0 {
      forall k | 0 <= k < CAP && k != i
        ensures !Matches(d.es[k], id)
      {
        assert Distinct(d.es, k, i);
      }
      if got.Some? {
        FreshStamp(d, i, t.es[i]);
        CachedAt(t, i);
        forall x | x != id
          ensures Cached(t.es, x) == Cached(d.es, x)
        {
          SlotWritten(d, i, t.es[i], x);
        }
      } else {
        Dropped(d, i);
      }
    }
  }

  lemma Dropped(d: Dir, i: nat)
    requires Ok(d) && i < CAP && d.es[i].used
    ensures var es := d.es[i := d.es[i].(used := false)];
            && Ok(d.(es := es)) && Cached(es, d.es[i].id) == None
            && forall x :: x != d.es[i].id ==> Cached(es, x) == Cached(d.es, x)
  {
    var es, id := d.es[i := d.es[i].(used := false)], d.es[i].id;
    Cleared(d, i);
    FindMeaning(es, id, 0);
    forall k | 0 <= k < CAP
      ensures !Matches(es[k], id)
    {
      assert Distinct(d.es, k, i);
    }
    forall x | x != id
      ensures Cached(es, x) == Cached(d.es, x)
    {
      SlotWritten(d, i, es[i], x);
    }
  }

  lemma RemoveMeaning(d: Dir, id: Id)
    requires Ok(d)
    ensures var (t, ok) := Removed(d, id);
            && Ok(t) && (ok <==> Cached(d.es, id).Some?) && Cached(t.es, id) == None
            && forall x :: x != id ==> Cached(t.es, x) == Cached(d.es, x)
  {
    FindMeaning(d.es, id, 0);
    if FindFrom(d.es, id, 0) >= 0 { Dropped(d, FindFrom(d.es, id, 0)); }
  }

  // ------------------------------------------------------------------- whole runs

  datatype Op =
    | Upsert(id: Id, loc: nat, epoch: u16, seqNo: u16, ttl: u16, at: nat)
    | Lookup(id: Id, at: nat)
    | Remove(id: Id)

  function Step(d: Dir, op: Op): Dir
    requires |d.es| == CAP
  {
    match op
    case Upsert(id, loc, epoch, seqNo, ttl, at) => Upserted(d, id, loc, epoch, seqNo, ttl, at % SPAN).0
    case Lookup(id, at) => LookedUp(d, id, at % SPAN).0
    case Remove(id) => Removed(d, id).0
  }

  lemma StepKeeps(d: Dir, op: Op)
    requires Ok(d) && d.clock < SPAN - 1
    ensures Ok(Step(d, op)) && d.clock <= Step(d, op).clock <= d.clock + 1
  {
    match op
    case Upsert(id, loc, epoch, seqNo, ttl, at) => UpsertMeaning(d, id, loc, epoch, seqNo, ttl, at % SPAN);
    case Lookup(id, at) => LookupMeaning(d, id, at % SPAN);
    case Remove(id) => RemoveMeaning(d, id);
  }

  /** An operation that neither replaces, removes, expires nor evicts the binding of id. */
  ghost predicate Spares(d: Dir, op: Op, id: Id)
    requires Ok(d)
  {
    match op
    case Upsert(x, loc, epoch, seqNo, ttl, at) =>
      if x == id then !Upserted(d, x, loc, epoch, seqNo, ttl, at % SPAN).1
      else Cached(d.es, id).Some? ==> Cached(Step(d, op).es, id).Some?
    case Lookup(x, at) => x == id && Cached(d.es, id).Some? ==> !Expired(Cached(d.es, id).value, at % SPAN)
    case Remove(x) => x != id
  }

  function Run(d: Dir, ops: seq<Op>): (t: Dir)
    requires |d.es| == CAP
    ensures |t.es| == CAP
  {
    if |ops| == 0 then d else Step(Run(d, ops[..|ops| - 1]), ops[|ops| - 1])
  }

  ghost predicate AllSpare(d: Dir, ops: seq<Op>, id: Id)
    requires |d.es| == CAP
  {
    |ops| > 0 ==>
      var before := Run(d, ops[..|ops| - 1]);
      AllSpare(d, ops[..|ops| - 1], id) && Ok(before) && Spares(before, ops[|ops| - 1], id)
  }

  lemma {:induction false} RunKeeps(d: Dir, ops: seq<Op>)
    requires Ok(d) && d.clock + |ops| < SPAN
    ensures Ok(Run(d, ops)) && d.clock <= Run(d, ops).clock <= d.clock + |ops|
  {
    if |ops| > 0 {
      RunKeeps(d, ops[..|ops| - 1]);
      StepKeeps(Run(d, ops[..|ops| - 1]), ops[|ops| - 1]);
    }
  }

  ghost predicate SameBinding(a: Option<Entry>, b: Option<Entry>)
  {
    a.Some? && b.Some? && a.value.(touched := 0) == b.value.(touched := 0)
  }

  lemma {:induction false} BindingStays(d: Dir, ops: seq<Op>, id: Id)
    requires Ok(d) && d.clock + |ops| < SPAN && Cached(d.es, id).Some? && AllSpare(d, ops, id)
    ensures SameBinding(Cached(Run(d, ops).es, id), Cached(d.es, id))
  {
    if |ops| > 0 {
      var before, op := Run(d, ops[..|ops| - 1]), ops[|ops| - 1];
      BindingStays(d, ops[..|ops| - 1], id);
      RunKeeps(d, ops[..|ops| - 1]);
      match op
      case Upsert(x, loc, epoch, seqNo, ttl, at) => UpsertMeaning(before, x, loc, epoch, seqNo, ttl, at % SPAN);
      case Lookup(x, at) => LookupMeaning(before, x, at % SPAN);
      case Remove(x) => RemoveMeaning(before, x);
    }
  }

  /** In any run, a lookup finds the last accepted registration of an identifier, as long
      as nothing since replaced, removed or evicted it, exactly until its lifetime is up. */
  lemma LastBindingFound(d: Dir, reg: Op, ops: seq<Op>, at: nat)
    requires Ok(d) && d.clock + |ops| + 2 < SPAN && reg.Upsert?
    requires Upserted(d, reg.id, reg.loc, reg.epoch, reg.seqNo, reg.ttl, reg.at % SPAN).1
    requires AllSpare(Step(d, reg), ops, reg.id)
    requires reg.at <= at < reg.at + reg.ttl * 1000 + HALF
    ensures Ok(Run(Step(d, reg), ops))
    ensures var got := LookedUp(Run(Step(d, reg), ops), reg.id, at % SPAN).1;
            && (got.Some? <==> at < reg.at + reg.ttl * 1000)
            && (got.Some? ==> got.value.loc == reg.loc && got.value.epoch == reg.epoch && got.value.seqNo == reg.seqNo)
  {
    var t := Step(d, reg);
    UpsertMeaning(d, reg.id, reg.loc, reg.epoch, reg.seqNo, reg.ttl, reg.at % SPAN);
    StepKeeps(d, reg);
    RunKeeps(t, ops);
    BindingStays(t, ops, reg.id);
    var u := Run(t, ops);
    LookupMeaning(u, reg.id, at % SPAN);
    var e := Cached(u.es, reg.id).value;
    LifetimeExact(e, reg.at, reg.ttl, at);
  }

  /** A binding stored at `from` has expired exactly from the end of its lifetime on. */
  lemma LifetimeExact(e: Entry, from: nat, ttl: u16, at: nat)
    requires e.expiry == ExpiryAt(from % SPAN, ttl) && from <= at < from + ttl * 1000 + HALF
    ensures Expired(e, at % SPAN) <==> at >= from + ttl * 1000
  {
    AfterDelay(from, ttl * 1000);
    ExpiredExact(e, from + ttl * 1000, at);
  }

  // ------------------------------------------------------------- recently touched

  /** An operation on the binding of id that is not a registration or removal, or on
      others while the binding's lifetime [from, due) lasts. */
  predicate Gentle(op: Op, id: Id, from: nat, due: nat)
  {
    match op
    case Upsert(x, _, _, _, _, at) => x != id && from <= at < due
    case Lookup(x, at) => x == id ==> from <= at < due
    case Remove(x) => x != id
  }

  /** The identifier other than id that an operation may touch. */
  function Named(op: Op, id: Id): set<Id>
  {
    if op.Remove? || op.id == id then {} else {op.id}
  }

  /** The distinct identifiers other than id that a run registers or looks up. */
  function AllNamed(ops: seq<Op>, id: Id): set<Id>
  {
    if |ops| == 0 then {} else AllNamed(ops[..|ops| - 1], id) + Named(ops[|ops| - 1], id)
  }

  /** Only identifiers of s were touched after id. */
  ghost predicate Recent(es: seq<Entry>, id: Id, s: set<Id>)
  {
    && Cached(es, id).Some?
    && forall y :: y != id && Cached(es, y).Some? && Cached(es, y).value.touched > Cached(es, id).value.touched ==>
         y in s
  }

  lemma StampBound(d: Dir, y: Id)
    requires Ok(d) && Cached(d.es, y).Some?
    ensures Cached(d.es, y).value.touched <= d.clock
  {
    FindMeaning(d.es, y, 0);
  }

  /** A live binding is not the victim while fewer than a full table of others followed. */
  lemma NotEvicted(d: Dir, id: Id, s: set<Id>, x: Id, now: u32)
    requires Ok(d) && Recent(d.es, id, s) && x != id && Cached(d.es, x).None? && |s + {x}| < CAP
    requires !Expired(Cached(d.es, id).value, now)
    ensures !Evicted(d, id, now)
  {
    if Evicted(d, id, now) {
      var i := FindFrom(d.es, id, 0);
      FindMeaning(d.es, id, 0);
      FindMeaning(d.es, x, 0);
      var ids := seq(CAP, k requires 0 <= k < CAP => if k == i then x else d.es[k].id);
      forall j, k | 0 <= j < k < CAP
        ensures ids[j] != ids[k]
      {
        assert Distinct(d.es, j, k) && !Matches(d.es[j], x) && !Matches(d.es[k], x);
      }
      forall k | 0 <= k < CAP
        ensures ids[k] in s + {x}
      {
        if k != i {
          CachedAt(d, k);
          assert Distinct(d.es, i, k);
        }
      }
      DistinctSize(ids);
      SubsetSize(Members(ids), s + {x});
      assert false;
    }
  }

  lemma RecentStep(d: Dir, op: Op, id: Id, s: set<Id>, from: nat, due: nat)
    requires Ok(d) && d.clock < SPAN - 1 && Recent(d.es, id, s) && Cached(d.es, id).value.expiry == due % SPAN
    requires due <= from + HALF && Gentle(op, id, from, due) && |s + Named(op, id)| < CAP
    ensures Spares(d, op, id) && Ok(Step(d, op))
    ensures Recent(Step(d, op).es, id, s + Named(op, id)) && Cached(Step(d, op).es, id).value.expiry == due % SPAN
  {
    var e := Cached(d.es, id).value;
    match op
    case Upsert(x, loc, epoch, seqNo, ttl, at) =>
      ExpiredExact(e, due, at);
      UpsertMeaning(d, x, loc, epoch, seqNo, ttl, at % SPAN);
      if Cached(d.es, x).None? { NotEvicted(d, id, s, x, at % SPAN); }
    case Lookup(x, at) =>
      LookupMeaning(d, x, at % SPAN);
      if x == id {
        ExpiredExact(e, due, at);
        forall y | y != id && Cached(d.es, y).Some?
          ensures Cached(d.es, y).value.touched <= d.clock
        {
          StampBound(d, y);
        }
      }
    case Remove(x) => RemoveMeaning(d, x);
  }

  /** A binding just registered or found is spared by every run that, within its
      lifetime, registers or looks up fewer than 32 distinct other identifiers. */
  lemma {:induction false} RecentSpared(d: Dir, ops: seq<Op>, id: Id, from: nat, due: nat)
    requires Ok(d) && d.clock + |ops| < SPAN && Cached(d.es, id).Some?
    requires Cached(d.es, id).value.touched == d.clock && Cached(d.es, id).value.expiry == due % SPAN
    requires due <= from + HALF && forall i :: 0 <= i < |ops| ==> Gentle(ops[i], id, from, due)
    requires |AllNamed(ops, id)| < CAP
    ensures AllSpare(d, ops, id) && Ok(Run(d, ops)) && Recent(Run(d, ops).es, id, AllNamed(ops, id))
    ensures Cached(Run(d, ops).es, id).value.expiry == due % SPAN
  {
    if |ops| > 0 {
      var init := ops[..|ops| - 1];
      SubsetSize(AllNamed(init, id), AllNamed(ops, id));
      RecentSpared(d, init, id, from, due);
      RunKeeps(d, init);
      RecentStep(Run(d, init), ops[|ops| - 1], id, AllNamed(init, id), from, due);
    } else {
      forall y | y != id && Cached(d.es, y).Some?
        ensures Cached(d.es, y).value.touched <= d.clock
      {
        StampBound(d, y);
      }
    }
  }

  lemma JustRegistered(d: Dir, reg: Op, due: nat)
    requires Ok(d) && d.clock < SPAN - 1 && reg.Upsert? && due == reg.at + reg.ttl * 1000
    requires Upserted(d, reg.id, reg.loc, reg.epoch, reg.seqNo, reg.ttl, reg.at % SPAN).1
    ensures var t := Step(d, reg);
            && Ok(t) && t.clock <= d.clock + 1 && Cached(t.es, reg.id).Some?
            && Cached(t.es, reg.id).value.touched == t.clock && Cached(t.es, reg.id).value.expiry == due % SPAN
  {
    UpsertMeaning(d, reg.id, reg.loc, reg.epoch, reg.seqNo, reg.ttl, reg.at % SPAN);
    AfterDelay(reg.at, reg.ttl * 1000);
  }

  /** So an accepted registration is found, until its lifetime is up and no longer, after
      every such run. */
  lemma RecentFound(d: Dir, reg: Op, ops: seq<Op>, due: nat, at: nat)
    requires Ok(d) && d.clock + |ops| + 2 < SPAN && reg.Upsert? && due == reg.at + reg.ttl * 1000
    requires Upserted(d, reg.id, reg.loc, reg.epoch, reg.seqNo, reg.ttl, reg.at % SPAN).1
    requires forall i :: 0 <= i < |ops| ==> Gentle(ops[i], reg.id, reg.at, due)
    requires |AllNamed(ops, reg.id)| < CAP && reg.at <= at < due + HALF
    ensures var got := LookedUp(Run(Step(d, reg), ops), reg.id, at % SPAN).1;
            && (got.Some? <==> at < due)
            && (got.Some? ==> got.value.loc == reg.loc && got.value.epoch == reg.epoch && got.value.seqNo == reg.seqNo)
  {
    JustRegistered(d, reg, due);
    RecentSpared(Step(d, reg), ops, reg.id, reg.at, due);
    LastBindingFound(d, reg, ops, at);
  }

  /** The signed 32-bit difference expiry - now. */
  function Remaining(e: Entry, now: u32): int
  {
    var d := (e.expiry - now) % SPAN;
    if d < HALF then d else d - SPAN
  }

  /** Nothing remains exactly once expired, but at the one point where the signed
      difference is the least it can be. */
  lemma RemainingExpired(e: Entry, now: u32)
    ensures Remaining(e, now) != -HALF ==> (Remaining(e, now) <= 0 <==> Expired(e, now))
  {
  }

  /** In true time what remains is the time to the end of the lifetime, within half the
      clock range of it. */
  lemma RemainingExact(e: Entry, due: int, at: int)
    requires e.expiry == due % SPAN
    ensures -HALF <= Remaining(e, at % SPAN) < HALF && (Remaining(e, at % SPAN) - (due - at)) % SPAN == 0
    ensures -HALF <= due - at < HALF ==> Remaining(e, at % SPAN) == due - at
  {
  }

  lemma WholeSeconds(ms: int, s: int, ttl: int)
    requires 0 < ms && s == ms / 1000 && ttl == if s == 0 then 1 else if s > 0xFFFF then 0xFFFF else s
    ensures 1 <= ttl <= 0xFFFF && (ttl - 1) * 1000 < ms && (ttl < 0xFFFF ==> ms < (ttl + 1) * 1000)
  {
  }

  // -------------------------------------------------------------------- the cache

  class LocatorDir {
    const e: array<Entry>
    var clock: u32

    ghost function View(): Dir
      reads this, e
    {
      Dir(e[..], clock)
    }

    constructor ()
      ensures Ok(View()) && fresh(e) && forall id :: Cached(View().es, id) == None
    {
      e := new Entry[CAP](i => Entry(false, [], 0, 0, 0, 0, 0));
      clock := 0;
      new;
      forall id
        ensures Cached(e[..], id) == None
      {
        FindMeaning(e[..], id, 0);
      }
    }

    method Find(id: Id) returns (r: int)
      requires e.Length == CAP
      ensures r == FindFrom(e[..], id, 0)
    {
      var i := 0;
      while i < CAP
        invariant 0 <= i <= CAP && FindFrom(e[..], id, i) == FindFrom(e[..], id, 0)
      {
        if e[i].used && e[i].id == id { return i; }
        i := i + 1;
      }
      r := -1;
    }

    method Alloc(now: u32) returns (slot: nat)
      requires e.Length == CAP
      ensures slot == AllocSlot(e[..], now)
    {
      var free, stale, lru, oldest := -1, -1, -1, 0;
      var i := 0;
      while i < CAP && free < 0
        invariant 0 <= i <= CAP && (free < 0 || free == FirstFree(e[..], 0))
        invariant free < 0 ==> FirstFree(e[..], i) == FirstFree(e[..], 0)
        invariant free < 0 ==> stale == LastExpired(e[..], i, now) && lru == LeastTouched(e[..], i)
        invariant free < 0 && lru >= 0 ==> oldest == e[lru].touched
        decreases CAP - i, free < 0
      {
        if !e[i].used {
          free := i;
        } else {
          if Expired(e[i], now) { stale := i; }
          if lru < 0 || e[i].touched < oldest { lru, oldest := i, e[i].touched; }
          i := i + 1;
        }
      }
      slot := if free >= 0 then free else if stale >= 0 then stale else lru;
    }

    method Upsert(id: Id, loc: nat, epoch: u16, seqNo: u16, ttl: u16, now: u32) returns (ok: bool)
      requires e.Length == CAP
      modifies this, e
      ensures (View(), ok) == Upserted(old(View()), id, loc, epoch, seqNo, ttl, now)
    {
      if |id| == 0 || |id| > ID_MAX { return false; }
      var i := Find(id);
      if i >= 0 {
        if !Accepts(e[i], epoch, seqNo, now) { return false; }
      } else {
        i := Alloc(now);
      }
      clock := Tick(clock);
      e[i] := Entry(true, id, loc, epoch, seqNo, ExpiryAt(now, ttl), clock);
      ok := true;
    }

    method Lookup(id: Id, now: u32) returns (found: bool, loc: nat)
      requires e.Length == CAP
      modifies this, e
      ensures View() == LookedUp(old(View()), id, now).0
      ensures LookedUp(old(View()), id, now).1 == None ==> !found
      ensures LookedUp(old(View()), id, now).1.Some? ==> found && loc == LookedUp(old(View()), id, now).1.value.loc
    {
      found, loc := false, 0;
      var i := Find(id);
      if i < 0 { return; }
      if Expired(e[i], now) {
        e[i] := e[i].(used := false);
        return;
      }
      clock := Tick(clock);
      e[i] := e[i].(touched := clock);
      found, loc := true, e[i].loc;
    }

    /** As a lookup, with the remaining seconds: at least one, at most what fits. */
    method LookupFull(id: Id, now: u32) returns (found: bool, binding: Entry, ttl: u16)
      requires e.Length == CAP
      modifies this, e
      ensures Cached(old(e[..]), id).Some? && Remaining(Cached(old(e[..]), id).value, now) != -HALF
              ==> View() == LookedUp(old(View()), id, now).0
      ensures !found ==> View() == (var i := FindFrom(old(e[..]), id, 0);
                                    if i < 0 then old(View())
                                    else Dir(old(e[..])[i := old(e[..])[i].(used := false)], old(clock)))
      ensures found <==> Cached(old(e[..]), id).Some? && Remaining(Cached(old(e[..]), id).value, now) > 0
      ensures found ==> binding == Cached(old(e[..]), id).value && 1 <= ttl
                        && (ttl - 1) * 1000 < Remaining(binding, now)
                        && (ttl < 0xFFFF ==> Remaining(binding, now) < (ttl + 1) * 1000)
    {
      found, ttl := false, 0;
      binding := Entry(false, [], 0, 0, 0, 0, 0);
      var i := Find(id);
      if i < 0 { return; }
      var rem := Remaining(e[i], now);
      RemainingExpired(e[i], now);
      if rem <= 0 {
        e[i] := e[i].(used := false);
        return;
      }
      binding := e[i];
      clock := Tick(clock);
      e[i] := e[i].(touched := clock);
      var s := rem / 1000;
      WholeSeconds(rem, s, if s == 0 then 1 else if s > 0xFFFF then 0xFFFF else s);
      ttl := if s == 0 then 1 else if s > 0xFFFF then 0xFFFF else s;
      found := true;
    }

    method Remove(id: Id) returns (ok: bool)
      requires e.Length == CAP
      modifies e
      ensures (View(), ok) == Removed(old(View()), id)
    {
      var i := Find(id);
      if i < 0 { return false; }
      e[i] := e[i].(used := false);
      ok := true;
    }
  }
}
