/** The post-handshake secure session (hostlib/aln_session/session.py): 64-bit counters
    recovered from 16 wire bits, an anti-replay window and a one-way key ratchet.  The
    AEAD and the key derivation are parameters; only decrypt-inverts-encrypt is used. */
module Session {
  import opened Basics
  import opened BitOps
  import opened Bytes

  const COUNTER_WINDOW: int := 0x7FFF
  const REPLAY_WINDOW: int := 512
  const HEADER_LEN: nat := 5
  const TAG_LEN: nat := 16
  const MSG_REKEY: u8 := 3

  type Octets = seq<u8>

  // -------------------------------------------------------- cryptography as parameters

  /** ChaCha20-Poly1305 and HKDF as functions; None is a failed authentication. */
  datatype Crypto = Crypto(
    seal: (Octets, Octets, Octets, Octets) -> Octets,          // key, nonce, plaintext, header
    open: (Octets, Octets, Octets, Octets) -> Option<Octets>,  // key, nonce, ciphertext, header
    salt: Octets -> Octets,
    ratchet: Octets -> Octets)

  /** Section 2.8 of RFC 8439: opening what was sealed returns the plaintext, and the
      tag adds 16 bytes; section 2.3 of RFC 5869: the salt has the 12 bytes asked for. */
  ghost predicate Sound(c: Crypto)
  {
    && (forall k, n, p, h :: c.open(k, n, c.seal(k, n, p, h), h) == Some(p))
    && (forall k, n, p, h :: |c.seal(k, n, p, h)| == |p| + TAG_LEN)
    && (forall k :: |c.salt(k)| == 12)
  }

  // ------------------------------------------------------------------- nonces

  /** The counter as the 12 bytes that are folded into the salt. */
  function CounterBytes(counter: nat): (b: Octets)
    ensures |b| == 12
  {
    LeBytes(counter, 8) + [0, 0, 0, 0]
  }

  function Nonce(salt: Octets, counter: nat): (n: Octets)
    requires |salt| == 12
    ensures |n| == 12
  {
    seq(12, i requires 0 <= i < 12 => XorByte(salt[i], CounterBytes(counter)[i]))
  }

  function XorByte(a: u8, b: u8): u8
  {
    XorBound(a, b, 8);
    Xor(a, b)
  }

  /** The salt with the counter, least significant byte first, folded into its first eight
      bytes. */
  lemma NonceMeaning(salt: Octets, counter: nat, i: nat)
    requires |salt| == 12 && i < 12
    ensures i < 8 ==> Nonce(salt, counter)[i] == Xor(salt[i], counter / Pow256(i) % 0x100)
    ensures i >= 8 ==> Nonce(salt, counter)[i] == salt[i]
  {
    if i < 8 { LeBytesAt(counter, 8, i); } else { XorZero(salt[i]); }
  }

  /** Under one salt, different 64-bit counters give different nonces. */
  lemma NonceInjective(salt: Octets, a: nat, b: nat)
    requires |salt| == 12 && a < COUNTER_LIMIT && b < COUNTER_LIMIT
    requires Nonce(salt, a) == Nonce(salt, b)
    ensures a == b
  {
    var x, y := CounterBytes(a), CounterBytes(b);
    forall i | 0 <= i < 12
      ensures x[i] == y[i]
    {
      assert Nonce(salt, a)[i] == Nonce(salt, b)[i];
      XorInjective(salt[i], x[i], y[i]);
    }
    assert x == y;
    assert LeBytes(a, 8) == x[..8] && LeBytes(b, 8) == y[..8];
    Pow256Small();
    LeBytesVal(a, 8);
    LeBytesVal(b, 8);
  }

  const COUNTER_LIMIT: int := 0x1_0000_0000_0000_0000

  // ------------------------------------------------------------ replay window

  /** The counters accepted so far that can still be told apart from replays. */
  class SlidingWindow {
    const size: int
    var highest: int
    var seen: set<int>
    ghost var accepted: set<int>  // every counter ever accepted

    ghost predicate Valid()
      reads this
    {
      && (forall c :: c in seen <==> c in accepted && c > highest - size)
      && (forall c :: c in accepted ==> c <= highest)
    }

    constructor (size: int)
      requires size > 0
      ensures Valid() && this.size == size && highest == -1 && accepted == {}
    {
      this.size := size;
      highest := -1;
      seen := {};
      accepted := {};
    }

    /** Accepts a counter exactly when it is inside the window and was never accepted. */
    method CheckAndSet(counter: int) returns (ok: bool)
      requires Valid() && size > 0
      modifies this
      ensures Valid()
      ensures ok <==> counter > old(highest) - size && counter !in old(accepted)
      ensures ok ==> accepted == old(accepted) + {counter} && highest == Max(old(highest), counter)
      ensures !ok ==> accepted == old(accepted) && highest == old(highest) && seen == old(seen)
    {
      if counter <= highest - size { return false; }
      if counter in seen { return false; }
      seen := seen + {counter};
      accepted := accepted + {counter};
      if counter > highest {
        highest := counter;
        seen := set c | c in seen && c > highest - size;
      }
      ok := true;
    }
  }

  // -------------------------------------------------------- counter recovery

  /** Full counter from its low 16 bits, nearest to the one expected next. */
  function Reconstruct(recvHigh: int, low: u16): (r: Option<int>)
    requires recvHigh >= -1
  {
    var expected := recvHigh + 1;
    var candidate := expected - expected % 0x1_0000 + low;
    var b0 := candidate;
    var b1 := Nearer(candidate - 0x1_0000, b0, expected);
    var b2 := Nearer(candidate, b1, expected);
    var b3 := Nearer(candidate + 0x1_0000, b2, expected);
    if Abs(b3 - expected) > COUNTER_WINDOW then None else Some(b3)
  }

  function Nearer(cand: int, best: int, expected: int): int
  {
    if cand >= 0 && Abs(cand - expected) < Abs(best - expected) then cand else best
  }

  /** A counter is recovered exactly when it lies within 0x7FFF of the expected one, and
      whatever is recovered has the right low bits and lies that close. */
  lemma ReconstructExact(recvHigh: int, counter: nat)
    requires recvHigh >= -1
    ensures Reconstruct(recvHigh, counter % 0x1_0000) == Some(counter) <==>
              Abs(counter - (recvHigh + 1)) <= COUNTER_WINDOW
  {
    if Abs(counter - (recvHigh + 1)) <= COUNTER_WINDOW {
      ReconstructNear(recvHigh, counter, counter / 0x1_0000, (recvHigh + 1) / 0x1_0000, (recvHigh + 1) % 0x1_0000);
    }
  }

  lemma ReconstructNear(recvHigh: int, counter: nat, q: int, e: int, rest: int)
    requires recvHigh >= -1 && recvHigh + 1 == e * 0x1_0000 + rest && 0 <= rest < 0x1_0000
    requires q * 0x1_0000 <= counter < (q + 1) * 0x1_0000 && Abs(counter - (recvHigh + 1)) <= COUNTER_WINDOW
    ensures Reconstruct(recvHigh, counter % 0x1_0000) == Some(counter)
  {
    var expected, low := recvHigh + 1, counter - q * 0x1_0000;
    assert counter % 0x1_0000 == low && expected - expected % 0x1_0000 == e * 0x1_0000;
    var candidate := e * 0x1_0000 + low;
    assert q - 1 <= e <= q + 1;
    if e == q {
      assert candidate == counter;
    } else if e == q - 1 {
      assert candidate + 0x1_0000 == counter;
    } else {
      assert candidate - 0x1_0000 == counter;
    }
  }

  lemma ReconstructSound(recvHigh: int, low: u16)
    requires recvHigh >= -1
    ensures var r := Reconstruct(recvHigh, low);
            r.Some? ==> r.value >= 0 && r.value % 0x1_0000 == low && Abs(r.value - (recvHigh + 1)) <= COUNTER_WINDOW
  {
    var expected := recvHigh + 1;
    var e := expected / 0x1_0000;
    assert expected - expected % 0x1_0000 == e * 0x1_0000;
    assert (e * 0x1_0000 + low) % 0x1_0000 == low;
    assert ((e - 1) * 0x1_0000 + low) % 0x1_0000 == low;
    assert ((e + 1) * 0x1_0000 + low) % 0x1_0000 == low;
  }

  // ---------------------------------------------------------------- one frame

  function Header(msgType: u8, flow: u16, counter: nat): (h: Octets)
    ensures |h| == HEADER_LEN
  {
    [msgType] + LeBytes(flow, 2) + LeBytes(counter % 0x1_0000, 2)
  }

  function Frame(c: Crypto, key: Octets, msgType: u8, flow: u16, counter: nat, plain: Octets): Octets
    requires |c.salt(key)| == 12
  {
    var h := Header(msgType, flow, counter);
    h + c.seal(key, Nonce(c.salt(key), counter), plain, h)
  }

  /** A frame on its bytes: the type, the flow and the low counter bits in two bytes each,
      low byte first, then the ciphertext, which authenticates these five. */
  lemma FrameExact(c: Crypto, key: Octets, msgType: u8, flow: u16, counter: nat, plain: Octets)
    requires |c.salt(key)| == 12
    ensures var f := Frame(c, key, msgType, flow, counter, plain);
            && |f| >= 5 && f[0] == msgType && f[1] as int + 0x100 * f[2] as int == flow
            && f[3] as int + 0x100 * f[4] as int == counter % 0x1_0000
            && f[5..] == c.seal(key, Nonce(c.salt(key), counter), plain, f[..5])
  {
    var f, h := Frame(c, key, msgType, flow, counter, plain), Header(msgType, flow, counter);
    assert f[..5] == h && f[1..3] == LeBytes(flow, 2) && f[3..5] == LeBytes(counter % 0x1_0000, 2);
    Pow256Small();
    LeBytesVal(flow, 2);
    LeBytesVal(counter % 0x1_0000, 2);
    TwoBytes(f[1..3]);
    TwoBytes(f[3..5]);
  }

  datatype Error = TooShort | WrongFlow | FarCounter | BadTag | Replay
  datatype Received = Failed(error: Error) | Opened(msgType: u8, plain: Octets, counter: int)

  /** What the receiving half of a session remembers. */
  datatype Receiver = Receiver(key: Octets, high: int, accepted: set<int>)

  /** Open one frame: recover the counter, authenticate, then and only then admit it. */
  function Receive(c: Crypto, flow: u16, r: Receiver, frame: Octets): (Receiver, Received)
    requires |c.salt(r.key)| == 12 && r.high >= -1
  {
    if |frame| < HEADER_LEN + TAG_LEN then (r, Failed(TooShort))
    else if LeU16(frame[1..3]) != flow then (r, Failed(WrongFlow))
    else
      var header := frame[..HEADER_LEN];
      match Reconstruct(r.high, LeU16(frame[3..5]))
      case None => (r, Failed(FarCounter))
      case Some(counter) =>
        if !(0 <= counter < COUNTER_LIMIT) then (r, Failed(BadTag))
        else
          match c.open(r.key, Nonce(c.salt(r.key), counter), frame[HEADER_LEN..], header)
          case None => (r, Failed(BadTag))
          case Some(plain) =>
            if counter <= r.high - REPLAY_WINDOW || counter in r.accepted then (r, Failed(Replay))
            else
              (Receiver(if frame[0] == MSG_REKEY then c.ratchet(r.key) else r.key, Max(r.high, counter),
                        r.accepted + {counter}),
               Opened(frame[0], plain, counter))
  }

  /** A counter is recovered exactly when it has the low bits and lies near. */
  lemma ReconstructIff(recvHigh: int, low: u16, n: int)
    requires recvHigh >= -1
    ensures Reconstruct(recvHigh, low) == Some(n) <==>
            n >= 0 && n % 0x1_0000 == low && -0x7FFF <= n - (recvHigh + 1) <= 0x7FFF
  {
    ReconstructSound(recvHigh, low);
    if n >= 0 && n % 0x1_0000 == low { ReconstructExact(recvHigh, n); }
  }

  /** What it takes to be let in: length, flow, a counter that fits and is near and new,
      and the tag. */
  ghost predicate Admissible(c: Crypto, flow: u16, r: Receiver, frame: Octets, plain: Octets, n: int)
    requires |c.salt(r.key)| == 12
  {
    && |frame| >= 21 && frame[1] as int + 0x100 * frame[2] as int == flow
    && 0 <= n < 0x1_0000_0000_0000_0000 && n % 0x1_0000 == frame[3] as int + 0x100 * frame[4] as int
    && -0x7FFF <= n - (r.high + 1) <= 0x7FFF
    && c.open(r.key, Nonce(c.salt(r.key), n), frame[5..], frame[..5]) == Some(plain)
    && n > r.high - 512 && n !in r.accepted
  }

  /** Whatever the cryptography: a frame opens exactly when it is admissible, with the
      type byte and plaintext it carries, and no other frame changes the receiver. */
  lemma OpensExactly(c: Crypto, flow: u16, r: Receiver, frame: Octets, msgType: u8, plain: Octets, n: int)
    requires |c.salt(r.key)| == 12 && r.high >= -1
    ensures Receive(c, flow, r, frame).1 == Opened(msgType, plain, n) <==>
              Admissible(c, flow, r, frame, plain, n) && msgType == frame[0]
    ensures Receive(c, flow, r, frame).1 == Opened(msgType, plain, n) ==>
              Receive(c, flow, r, frame).0 ==
              Receiver(if msgType == 3 then c.ratchet(r.key) else r.key, Max(r.high, n), r.accepted + {n})
    ensures Receive(c, flow, r, frame).1.Failed? ==> Receive(c, flow, r, frame).0 == r
  {
    if |frame| >= 21 {
      TwoBytes(frame[1..3]);
      TwoBytes(frame[3..5]);
      ReconstructIff(r.high, LeU16(frame[3..5]), n);
      ReconstructSound(r.high, LeU16(frame[3..5]));
    }
  }

  /** The reason given, in the order of the checks: length, flow, a counter too far from
      the one expected, the tag, and only then the replay window. */
  lemma WhyRefused(c: Crypto, flow: u16, r: Receiver, frame: Octets)
    requires |c.salt(r.key)| == 12 && r.high >= -1 && Receive(c, flow, r, frame).1.Failed?
    ensures var why := Receive(c, flow, r, frame).1.error;
            && (why == TooShort <==> |frame| < 21)
            && (why == WrongFlow <==> |frame| >= 21 && frame[1] as int + 0x100 * frame[2] as int != flow)
            && (why == Replay ==>
                  exists n: nat, plain :: c.open(r.key, Nonce(c.salt(r.key), n), frame[5..], frame[..5]) == Some(plain)
                                     && (n <= r.high - 512 || n in r.accepted))
            && (why == FarCounter ==>
                  forall n: nat :: n % 0x1_0000 == frame[3] as int + 0x100 * frame[4] as int ==>
                                     n - (r.high + 1) < -0x7FFF || n - (r.high + 1) > 0x7FFF)
  {
    if |frame| >= 21 {
      TwoBytes(frame[1..3]);
      TwoBytes(frame[3..5]);
      forall n: nat
        ensures Reconstruct(r.high, LeU16(frame[3..5])) == Some(n) <==>
                  n % 0x1_0000 == LeU16(frame[3..5]) && -0x7FFF <= n - (r.high + 1) <= 0x7FFF
      {
        ReconstructIff(r.high, LeU16(frame[3..5]), n);
      }
      ReconstructSound(r.high, LeU16(frame[3..5]));
    }
  }

  /** So a frame whose tag does not verify is refused and leaves no trace. */
  lemma ForgeryRefused(c: Crypto, flow: u16, r: Receiver, frame: Octets)
    requires |c.salt(r.key)| == 12 && r.high >= -1
    requires |frame| >= 5 && forall n: nat :: c.open(r.key, Nonce(c.salt(r.key), n), frame[5..], frame[..5]) == None
    ensures Receive(c, flow, r, frame).0 == r && Receive(c, flow, r, frame).1.Failed?
  {
    match Receive(c, flow, r, frame).1
    case Opened(t, p, n) => OpensExactly(c, flow, r, frame, t, p, n);
    case Failed(_) =>
  }

  /** A genuine frame under the current key, near the expected counter and inside the
      replay window for the first time, opens to exactly what was sealed. */
  lemma GenuineFrameOpens(c: Crypto, flow: u16, r: Receiver, msgType: u8, counter: nat, plain: Octets)
    requires Sound(c) && r.high >= -1 && counter < COUNTER_LIMIT
    requires Abs(counter - (r.high + 1)) <= COUNTER_WINDOW && counter > r.high - REPLAY_WINDOW && counter !in r.accepted
    ensures Receive(c, flow, r, Frame(c, r.key, msgType, flow, counter, plain)) ==
      (Receiver(if msgType == MSG_REKEY then c.ratchet(r.key) else r.key, Max(r.high, counter), r.accepted + {counter}),
       Opened(msgType, plain, counter))
  {
    var f, h := Frame(c, r.key, msgType, flow, counter, plain), Header(msgType, flow, counter);
    assert f[..HEADER_LEN] == h && f[0] == msgType;
    assert f[1..3] == LeBytes(flow, 2) && f[3..5] == LeBytes(counter % 0x1_0000, 2);
    Pow256Small();
    LeBytesVal(flow, 2);
    LeBytesVal(counter % 0x1_0000, 2);
    ReconstructExact(r.high, counter);
    assert f[HEADER_LEN..] == c.seal(r.key, Nonce(c.salt(r.key), counter), plain, h);
  }

  /** The counters opened, in order, while arbitrary frames arrive. */
  ghost function OpenedBy(c: Crypto, flow: u16, r: Receiver, frames: seq<Octets>): seq<int>
    requires (forall k :: |c.salt(k)| == 12) && r.high >= -1
    decreases |frames|
  {
    if |frames| == 0 then []
    else
      var (next, got) := Receive(c, flow, r, frames[0]);
      (if got.Opened? then [got.counter] else []) + OpenedBy(c, flow, next, frames[1..])
  }

  /** Whatever arrives, forged or repeated, no counter is opened twice. */
  lemma {:induction false} NeverTwice(c: Crypto, flow: u16, r: Receiver, frames: seq<Octets>)
    requires (forall k :: |c.salt(k)| == 12) && r.high >= -1
    decreases |frames|
    ensures NoneTwice(OpenedBy(c, flow, r, frames), r.accepted)
  {
    if |frames| > 0 {
      var (next, got) := Receive(c, flow, r, frames[0]);
      NeverTwice(c, flow, next, frames[1..]);
      OpensNew(c, flow, r, frames[0]);
      FirstThenRest(got, OpenedBy(c, flow, next, frames[1..]), r.accepted, next.accepted);
    }
  }

  lemma OpensNew(c: Crypto, flow: u16, r: Receiver, frame: Octets)
    requires |c.salt(r.key)| == 12 && r.high >= -1
    ensures var (next, got) := Receive(c, flow, r, frame);
            if got.Opened? then got.counter !in r.accepted && next.accepted == r.accepted + {got.counter} else next == r
  {
  }

  ghost predicate NoneTwice(os: seq<int>, before: set<int>)
  {
    (forall i :: 0 <= i < |os| ==> os[i] !in before) && (forall i, j :: 0 <= i < j < |os| ==> os[i] != os[j])
  }

  lemma FirstThenRest(got: Received, rest: seq<int>, before: set<int>, after: set<int>)
    requires NoneTwice(rest, after)
    requires if got.Opened? then got.counter !in before && after == before + {got.counter} else after == before
    ensures NoneTwice((if got.Opened? then [got.counter] else []) + rest, before)
  {
    if !got.Opened? { assert [] + rest == rest; }
  }

  // --------------------------------------------------- what a run puts on the air

  datatype Msg = Msg(msgType: u8, plain: Octets)

  /** REKEYs among the first n messages of a run: the epoch of message n. */
  function Epoch(msgs: seq<Msg>, n: nat): nat
    requires n <= |msgs|
  {
    if n == 0 then 0 else Epoch(msgs, n - 1) + if msgs[n - 1].msgType == MSG_REKEY then 1 else 0
  }

  function KeyAt(c: Crypto, key: Octets, epoch: nat): Octets
  {
    if epoch == 0 then key else c.ratchet(KeyAt(c, key, epoch - 1))
  }

  /** The n-th frame a sender puts on the air in a run of seals and rekeys. */
  function SentFrame(c: Crypto, key: Octets, flow: u16, msgs: seq<Msg>, n: nat): Octets
    requires n < |msgs| && forall k :: |c.salt(k)| == 12
  {
    Frame(c, KeyAt(c, key, Epoch(msgs, n)), msgs[n].msgType, flow, n, msgs[n].plain)
  }

  /** Every frame of a run is the one its message, position and epoch call for. */
  ghost predicate OnAir(c: Crypto, key: Octets, flow: u16, msgs: seq<Msg>, frames: seq<Octets>)
    requires forall k :: |c.salt(k)| == 12
  {
    |msgs| == |frames| && forall i :: 0 <= i < |msgs| ==> frames[i] == SentFrame(c, key, flow, msgs, i)
  }

  lemma {:induction false} EpochPrefix(msgs: seq<Msg>, m: Msg, n: nat)
    requires n <= |msgs|
    ensures Epoch(msgs + [m], n) == Epoch(msgs, n)
  {
    if n > 0 { EpochPrefix(msgs, m, n - 1); }
  }

  lemma EpochGrows(msgs: seq<Msg>, m: Msg)
    ensures Epoch(msgs + [m], |msgs| + 1) == Epoch(msgs, |msgs|) + if m.msgType == MSG_REKEY then 1 else 0
  {
    EpochPrefix(msgs, m, |msgs|);
  }

  lemma SentGrows(c: Crypto, key: Octets, flow: u16, msgs: seq<Msg>, frames: seq<Octets>, m: Msg)
    requires forall k :: |c.salt(k)| == 12
    requires OnAir(c, key, flow, msgs, frames)
    ensures OnAir(c, key, flow, msgs + [m],
                     frames + [Frame(c, KeyAt(c, key, Epoch(msgs, |msgs|)), m.msgType, flow, |msgs|, m.plain)])
  {
    forall i | 0 <= i <= |msgs|
      ensures Epoch(msgs + [m], i) == Epoch(msgs, i)
    {
      EpochPrefix(msgs, m, i);
    }
  }

  /** One more frame under the key of its epoch keeps every run it continues on the air. */
  lemma EveryRunGrows(c: Crypto, key: Octets, flow: u16, msgs: seq<Msg>, frames: seq<Octets>, m: Msg)
    requires forall k :: |c.salt(k)| == 12
    ensures Epoch(msgs + [m], |msgs| + 1) == Epoch(msgs, |msgs|) + if m.msgType == MSG_REKEY then 1 else 0
    ensures forall origin ::
              OnAir(c, origin, flow, msgs, frames) && key == KeyAt(c, origin, Epoch(msgs, |msgs|)) ==>
              OnAir(c, origin, flow, msgs + [m], frames + [Frame(c, key, m.msgType, flow, |msgs|, m.plain)])
  {
    EpochGrows(msgs, m);
    forall origin | OnAir(c, origin, flow, msgs, frames) && key == KeyAt(c, origin, Epoch(msgs, |msgs|))
      ensures OnAir(c, origin, flow, msgs + [m], frames + [Frame(c, key, m.msgType, flow, |msgs|, m.plain)])
    {
      SentGrows(c, origin, flow, msgs, frames, m);
    }
  }

  // ----------------------------------------------------------------- the session

  class Session {
    const crypto: Crypto
    const localFlow: u16
    const remoteFlow: u16
    const rekeyAfter: int
    const replay: SlidingWindow
    var sendKey: Octets
    var recvKey: Octets
    var sendSalt: Octets
    var recvSalt: Octets
    var sendCtr: nat
    var recvHigh: int
    var msgsSinceRekey: nat
    ghost var used: seq<(Octets, Octets)>  // (key, nonce) of every frame sealed, in order
    ghost var sent: seq<Msg>               // every message sealed, in order
    ghost var frames: seq<Octets>          // and the frame each became

    ghost predicate Valid()
      reads this, replay
    {
      && Sound(crypto)
      && sendSalt == crypto.salt(sendKey) && recvSalt == crypto.salt(recvKey)
      && replay.Valid() && replay.size == REPLAY_WINDOW && recvHigh == replay.highest >= -1
      && |used| == sendCtr <= COUNTER_LIMIT
      && forall i :: 0 <= i < |used| ==> used[i].1 == Nonce(crypto.salt(used[i].0), i)
    }

    /** The whole run so far, as if it had been sealed from the initial key onwards. */
    ghost predicate InStep(origin: Octets)
      reads this
      requires Sound(crypto)
    {
      && |sent| == sendCtr && sendKey == KeyAt(crypto, origin, Epoch(sent, |sent|))
      && OnAir(crypto, origin, remoteFlow, sent, frames)
    }

    ghost function View(): Receiver
      reads this, replay
    {
      Receiver(recvKey, recvHigh, replay.accepted)
    }

    constructor (crypto: Crypto, sendKey: Octets, recvKey: Octets, localFlow: u16, remoteFlow: u16, rekeyAfter: int)
      requires Sound(crypto)
      ensures Valid() && fresh(replay) && sendCtr == 0 && used == []
      ensures this.crypto == crypto && this.sendKey == sendKey && this.localFlow == localFlow
                && this.remoteFlow == remoteFlow
      ensures View() == Receiver(recvKey, -1, {}) && sent == [] && InStep(sendKey)
    {
      this.crypto := crypto;
      this.sendKey := sendKey;
      this.recvKey := recvKey;
      this.localFlow := localFlow;
      this.remoteFlow := remoteFlow;
      this.rekeyAfter := rekeyAfter;
      sendCtr := 0;
      recvHigh := -1;
      msgsSinceRekey := 0;
      replay := new SlidingWindow(REPLAY_WINDOW);
      sendSalt := crypto.salt(sendKey);
      recvSalt := crypto.salt(recvKey);
      used, sent, frames := [], [], [];
    }

    /** Seal one message; None once the 64-bit counter is spent. */
    method Seal(msgType: u8, plain: Octets) returns (frame: Option<Octets>)
      requires Valid()
      modifies `sendCtr, `msgsSinceRekey, `used, `sent, `frames
      ensures Valid()
      ensures frame.Some? <==> old(sendCtr) < COUNTER_LIMIT
      ensures frame.Some? ==> frame.value == Frame(crypto, sendKey, msgType, remoteFlow, old(sendCtr), plain)
      ensures frame.Some? ==> sendCtr == old(sendCtr) + 1 && msgsSinceRekey == old(msgsSinceRekey) + 1
      ensures frame.Some? ==> used == old(used) + [(sendKey, Nonce(crypto.salt(sendKey), old(sendCtr)))]
      ensures frame.Some? ==> sent == old(sent) + [Msg(msgType, plain)] && frames == old(frames) + [frame.value]
      ensures frame.None? ==> sendCtr == old(sendCtr) && used == old(used) && msgsSinceRekey == old(msgsSinceRekey)
      ensures frame.None? ==> sent == old(sent) && frames == old(frames)
      ensures forall origin :: old(InStep(origin)) ==> OnAir(crypto, origin, remoteFlow, sent, frames)
      ensures forall origin :: old(InStep(origin)) && msgType != MSG_REKEY ==> InStep(origin)
      ensures frame.Some? && msgType == MSG_REKEY ==> Epoch(sent, |sent|) == old(Epoch(sent, |sent|)) + 1
    {
      var counter := sendCtr;
      if counter >= COUNTER_LIMIT { return None; }
      var header := Header(msgType, remoteFlow, counter);
      var nonce := Nonce(sendSalt, counter);
      frame := Some(header + crypto.seal(sendKey, nonce, plain, header));
      EveryRunGrows(crypto, sendKey, remoteFlow, sent, frames, Msg(msgType, plain));
      used := used + [(sendKey, nonce)];
      sent, frames := sent + [Msg(msgType, plain)], frames + [frame.value];
      sendCtr := sendCtr + 1;
      msgsSinceRekey := msgsSinceRekey + 1;
    }

    /** Announce a rekey under the old key, then advance the send key. */
    method SendRekey() returns (frame: Option<Octets>)
      requires Valid()
      modifies `sendCtr, `msgsSinceRekey, `used, `sent, `frames, `sendKey, `sendSalt
      ensures Valid()
      ensures frame.Some? <==> old(sendCtr) < COUNTER_LIMIT
      ensures frame.Some? ==> frame.value == Frame(crypto, old(sendKey), MSG_REKEY, remoteFlow, old(sendCtr), [])
      ensures frame.Some? ==>
                sendKey == crypto.ratchet(old(sendKey)) && sendCtr == old(sendCtr) + 1 && msgsSinceRekey == 0
      ensures frame.Some? ==> used == old(used) + [(old(sendKey), Nonce(crypto.salt(old(sendKey)), old(sendCtr)))]
      ensures frame.Some? ==> sent == old(sent) + [Msg(MSG_REKEY, [])] && frames == old(frames) + [frame.value]
      ensures frame.None? ==> sendKey == old(sendKey) && sendCtr == old(sendCtr) && used == old(used)
      ensures frame.None? ==> sent == old(sent) && frames == old(frames)
      ensures forall origin :: old(InStep(origin)) ==> InStep(origin)
    {
      frame := Seal(MSG_REKEY, []);
      if frame.None? { return; }
      sendKey := crypto.ratchet(sendKey);
      sendSalt := crypto.salt(sendKey);
      msgsSinceRekey := 0;
    }

    /** No two sealed frames ever share a (key, nonce) pair, rekeys or not. */
    lemma NonceNeverReused(i: nat, j: nat)
      requires Valid() && i < j < |used|
      ensures used[i] != used[j]
    {
      if used[i] == used[j] {
        NonceInjective(crypto.salt(used[i].0), i, j);
      }
    }

    method RecoverCounter(low: u16) returns (r: Option<int>)
      requires recvHigh >= -1
      ensures r == Reconstruct(recvHigh, low)
    {
      var expected := recvHigh + 1;
      var candidate := expected - expected % 0x1_0000 + low;
      var best := candidate;
      var cands := [candidate - 0x1_0000, candidate, candidate + 0x1_0000];
      ghost var first := Nearer(cands[0], candidate, expected);
      ghost var second := Nearer(cands[1], first, expected);
      ghost var third := Nearer(cands[2], second, expected);
      var i := 0;
      while i < 3
        invariant 0 <= i <= 3
        invariant best == (if i == 0 then candidate else if i == 1 then first else if i == 2 then second else third)
      {
        if cands[i] >= 0 && Abs(cands[i] - expected) < Abs(best - expected) {
          best := cands[i];
        }
        i := i + 1;
      }
      if Abs(best - expected) > COUNTER_WINDOW { return None; }
      r := Some(best);
    }

    method Decrypt(frame: Octets) returns (r: Received)
      requires Valid()
      modifies `recvHigh, `recvKey, `recvSalt, replay
      ensures Valid()
      ensures (View(), r) == Receive(crypto, localFlow, old(View()), frame)
      ensures r.Opened? ==> r.counter !in old(replay.accepted)
    {
      if |frame| < HEADER_LEN + TAG_LEN { return Failed(TooShort); }
      if LeU16(frame[1..3]) != localFlow { return Failed(WrongFlow); }
      var header := frame[..HEADER_LEN];
      var counter := RecoverCounter(LeU16(frame[3..5]));
      if counter.None? { return Failed(FarCounter); }
      if !(0 <= counter.value < COUNTER_LIMIT) { return Failed(BadTag); }
      var plain := crypto.open(recvKey, Nonce(recvSalt, counter.value), frame[HEADER_LEN..], header);
      if plain.None? { return Failed(BadTag); }
      var isNew := replay.CheckAndSet(counter.value);
      if !isNew { return Failed(Replay); }
      if counter.value > recvHigh { recvHigh := counter.value; }
      if frame[0] == MSG_REKEY {
        recvKey := crypto.ratchet(recvKey);
        recvSalt := crypto.salt(recvKey);
      }
      r := Opened(frame[0], plain.value, counter.value);
    }
  }

  // ------------------------------------------------------- delivery under loss

  ghost predicate Within(msgs: seq<Msg>, ds: seq<nat>)
  {
    forall i :: 0 <= i < |ds| ==> ds[i] < |msgs|
  }

  /** The receiver after the deliveries ds, if all of them opened. */
  ghost function After(c: Crypto, key: Octets, msgs: seq<Msg>, ds: seq<nat>): Receiver
    requires Within(msgs, ds)
  {
    if |ds| == 0 then Receiver(key, -1, {})
    else
      var d := ds[|ds| - 1];
      var r := After(c, key, msgs, ds[..|ds| - 1]);
      Receiver(if msgs[d].msgType == MSG_REKEY then c.ratchet(r.key) else r.key, Max(r.high, d), r.accepted + {d})
  }

  ghost function RekeysIn(msgs: seq<Msg>, ds: seq<nat>): nat
    requires Within(msgs, ds)
  {
    if |ds| == 0 then 0
    else RekeysIn(msgs, ds[..|ds| - 1]) + if msgs[ds[|ds| - 1]].msgType == MSG_REKEY then 1 else 0
  }

  ghost function High(ds: seq<nat>): int
  {
    if |ds| == 0 then -1 else Max(High(ds[..|ds| - 1]), ds[|ds| - 1])
  }

  /** The next delivery d is new, near, inside the window, and of the epoch whose REKEYs
      have arrived. */
  ghost predicate Timely(msgs: seq<Msg>, ds: seq<nat>, d: nat)
    requires Within(msgs, ds)
  {
    && d < |msgs| && d !in ds && d > High(ds) - REPLAY_WINDOW && Abs(d - (High(ds) + 1)) <= COUNTER_WINDOW
    && Epoch(msgs, d) == RekeysIn(msgs, ds)
  }

  /** A schedule of deliveries, with any losses and reordering, each of them timely. */
  ghost predicate Schedule(msgs: seq<Msg>, ds: seq<nat>)
  {
    |ds| > 0 ==> Within(msgs, ds) && Schedule(msgs, ds[..|ds| - 1]) && Timely(msgs, ds[..|ds| - 1], ds[|ds| - 1])
  }

  lemma {:induction false} AfterFacts(c: Crypto, key: Octets, msgs: seq<Msg>, ds: seq<nat>)
    requires Within(msgs, ds)
    ensures After(c, key, msgs, ds).key == KeyAt(c, key, RekeysIn(msgs, ds))
    ensures After(c, key, msgs, ds).high == High(ds) >= -1
    ensures forall d: int :: d in After(c, key, msgs, ds).accepted <==> d >= 0 && d in ds
  {
    if |ds| > 0 {
      var n := |ds| - 1;
      AfterFacts(c, key, msgs, ds[..n]);
      assert ds == ds[..n] + [ds[n]];
    }
  }

  /** Delivery: in every timely schedule each delivered frame opens to exactly the type,
      plaintext and counter it was sealed with, and the receiver's key is the sender's
      key of the same epoch. */
  lemma Delivered(c: Crypto, key: Octets, flow: u16, msgs: seq<Msg>, ds: seq<nat>, d: nat)
    requires Sound(c) && |msgs| <= COUNTER_LIMIT
    requires Schedule(msgs, ds + [d])
    ensures Within(msgs, ds) && Within(msgs, ds + [d]) && d < |msgs|
    ensures Receive(c, flow, After(c, key, msgs, ds), SentFrame(c, key, flow, msgs, d))
            == (After(c, key, msgs, ds + [d]), Opened(msgs[d].msgType, msgs[d].plain, d))
    ensures After(c, key, msgs, ds + [d]).key == KeyAt(c, key, RekeysIn(msgs, ds + [d]))
  {
    var all := ds + [d];
    assert all[..|ds|] == ds;
    assert Within(msgs, all) && all[|ds|] == d;
    assert forall i :: 0 <= i < |ds| ==> ds[i] == all[i];
    AfterFacts(c, key, msgs, ds);
    AfterFacts(c, key, msgs, all);
    GenuineFrameOpens(c, flow, After(c, key, msgs, ds), msgs[d].msgType, d, msgs[d].plain);
  }

  /** Receive one frame after another. */
  ghost function ReceiveAll(c: Crypto, flow: u16, r: Receiver, frames: seq<Octets>): (res: (Receiver, seq<Received>))
    requires (forall k :: |c.salt(k)| == 12) && r.high >= -1
    ensures res.0.high >= -1
  {
    if |frames| == 0 then (r, [])
    else
      var (before, got) := ReceiveAll(c, flow, r, frames[..|frames| - 1]);
      var (after, last) := Receive(c, flow, before, frames[|frames| - 1]);
      (after, got + [last])
  }

  /** The frames that arrive, and what each should open to. */
  ghost function Arriving(frames: seq<Octets>, ds: seq<nat>): seq<Octets>
    requires forall i :: 0 <= i < |ds| ==> ds[i] < |frames|
  {
    seq(|ds|, i requires 0 <= i < |ds| => frames[ds[i]])
  }

  ghost function Expected(msgs: seq<Msg>, ds: seq<nat>): seq<Received>
    requires Within(msgs, ds)
  {
    seq(|ds|, i requires 0 <= i < |ds| => Opened(msgs[ds[i]].msgType, msgs[ds[i]].plain, ds[i]))
  }

  /** A whole schedule: a fresh receiver opens every frame a sender's run put on the air,
      as it arrives, to what was sealed, and follows the key epochs. */
  lemma {:induction false} AllDelivered(c: Crypto, key: Octets, flow: u16, msgs: seq<Msg>, frames: seq<Octets>,
                                        ds: seq<nat>)
    requires Sound(c) && |msgs| <= COUNTER_LIMIT && OnAir(c, key, flow, msgs, frames)
    requires Schedule(msgs, ds)
    ensures Within(msgs, ds)
    ensures ReceiveAll(c, flow, Receiver(key, -1, {}), Arriving(frames, ds))
              == (After(c, key, msgs, ds), Expected(msgs, ds))
    ensures After(c, key, msgs, ds).key == KeyAt(c, key, RekeysIn(msgs, ds))
  {
    if |ds| > 0 {
      var n := |ds| - 1;
      var init, d := ds[..n], ds[n];
      AllDelivered(c, key, flow, msgs, frames, init);
      assert ds == init + [d];
      Delivered(c, key, flow, msgs, init, d);
      OneMore(msgs, frames, init, d);
    } else {
      assert Expected(msgs, ds) == [];
    }
  }

  lemma OneMore(msgs: seq<Msg>, frames: seq<Octets>, ds: seq<nat>, d: nat)
    requires |msgs| == |frames| && Within(msgs, ds) && d < |msgs|
    ensures Within(msgs, ds + [d])
    ensures Arriving(frames, ds + [d])[..|ds|] == Arriving(frames, ds) && Arriving(frames, ds + [d])[|ds|] == frames[d]
    ensures Expected(msgs, ds + [d]) == Expected(msgs, ds) + [Opened(msgs[d].msgType, msgs[d].plain, d)]
  {
  }

  /** Delivering everything in order is one timely schedule, so a loss-free channel
      opens the whole run and ends with both keys in step. */
  lemma {:induction false} InOrderSchedule(msgs: seq<Msg>, n: nat)
    requires n <= |msgs|
    ensures Schedule(msgs, Upto(n)) && High(Upto(n)) == n - 1 && RekeysIn(msgs, Upto(n)) == Epoch(msgs, n)
  {
    if n > 0 {
      InOrderSchedule(msgs, n - 1);
      assert Upto(n)[..n - 1] == Upto(n - 1);
    }
  }

  function Upto(n: nat): (s: seq<nat>)
    ensures |s| == n && forall i :: 0 <= i < n ==> s[i] == i
  {
    seq(n, i requires 0 <= i < n => i)
  }

  /** So without loss every frame opens in turn, and both ends stand at the same key. */
  lemma LosslessOpensAll(c: Crypto, key: Octets, flow: u16, msgs: seq<Msg>, frames: seq<Octets>)
    requires Sound(c) && |msgs| <= COUNTER_LIMIT && OnAir(c, key, flow, msgs, frames)
    ensures var (r, got) := ReceiveAll(c, flow, Receiver(key, -1, {}), frames);
            && r.key == KeyAt(c, key, Epoch(msgs, |msgs|)) && |got| == |msgs|
            && forall i :: 0 <= i < |msgs| ==> got[i] == Opened(msgs[i].msgType, msgs[i].plain, i)
  {
    InOrderSchedule(msgs, |msgs|);
    AllDelivered(c, key, flow, msgs, frames, Upto(|msgs|));
    assert Arriving(frames, Upto(|msgs|)) == frames;
  }
}
