/** SHA-512 over an incremental interface (lib/monocypher/monocypher-ed25519.c): a block
    buffer filled by bytes, words and whole blocks, and an in-place message schedule.
    The six logical functions and the constants K of FIPS 180-4 are parameters. */
module Sha512 {
  import opened Basics
  import opened BitOps
  import opened Bytes

  const WORD: int := 0x1_0000_0000_0000_0000
  const BITS: int := 0x1_0000_0000_0000_0000_0000_0000_0000_0000

  // ---------------------------------------------------------- big-endian numbers

  function BeVal(b: seq<u8>): nat
  {
    if |b| == 0 then 0 else 0x100 * BeVal(b[..|b| - 1]) + b[|b| - 1]
  }

  function BeBytes(x: nat, n: nat): (b: seq<u8>)
    ensures |b| == n
  {
    if n == 0 then [] else BeBytes(x / 0x100, n - 1) + [x % 0x100]
  }

  lemma {:induction false} BeValBound(b: seq<u8>)
    ensures BeVal(b) < Pow256(|b|)
  {
    if |b| > 0 { BeValBound(b[..|b| - 1]); }
  }

  lemma {:induction false} BeBytesVal(x: nat, n: nat)
    requires x < Pow256(n)
    ensures BeVal(BeBytes(x, n)) == x
  {
    if n > 0 {
      BeBytesVal(x / 0x100, n - 1);
      assert BeBytes(x, n)[..n - 1] == BeBytes(x / 0x100, n - 1);
    }
  }

  lemma {:induction false} BeValAppend(a: seq<u8>, b: seq<u8>)
    ensures BeVal(a + b) == BeVal(a) * Pow256(|b|) + BeVal(b)
  {
    if |b| == 0 {
      assert a + b == a;
    } else {
      var c := b[..|b| - 1];
      BeValAppend(a, c);
      assert (a + b)[..|a + b| - 1] == a + c;
      Times256(BeVal(a), Pow256(|c|), Pow256(|b|));
    }
  }

  lemma Times256(a: int, p: int, q: int)
    requires q == 0x100 * p
    ensures a * q == 0x100 * (a * p)
  {
  }

  /** Writing two numbers side by side is writing their combination. */
  lemma {:induction false} BeBytesPair(hi: nat, lo: nat, m: nat, n: nat)
    requires lo < Pow256(n)
    ensures BeBytes(hi * Pow256(n) + lo, m + n) == BeBytes(hi, m) + BeBytes(lo, n)
  {
    if n == 0 {
      assert BeBytes(hi, m) + [] == BeBytes(hi, m);
    } else {
      Times256(hi, Pow256(n - 1), Pow256(n));
      var x := hi * Pow256(n) + lo;
      assert x / 0x100 == hi * Pow256(n - 1) + lo / 0x100 && x % 0x100 == lo % 0x100;
      BeBytesPair(hi, lo / 0x100, m, n - 1);
      assert m + n - 1 == m + (n - 1);
    }
  }

  function Zeros(n: nat): (z: seq<u8>)
    ensures |z| == n && forall i :: 0 <= i < n ==> z[i] == 0
  {
    seq(n, i => 0)
  }

  lemma {:induction false} BeValZeros(z: seq<u8>)
    requires forall i :: 0 <= i < |z| ==> z[i] == 0
    ensures BeVal(z) == 0
  {
    if |z| > 0 { BeValZeros(z[..|z| - 1]); }
  }

  function Word(b: seq<u8>): u64
    requires |b| == 8
  {
    BeValBound(b);
    Pow256Small();
    BeVal(b)
  }

  /** A 128-byte block as sixteen big-endian words. */
  function Words(b: seq<u8>): (w: seq<u64>)
    requires |b| == 128
    ensures |w| == 16
  {
    seq(16, i requires 0 <= i < 16 => Word(b[8 * i..8 * i + 8]))
  }

  /** The first byte is the most significant: byte i of n is the digit of 256^(n - 1 - i). */
  lemma {:induction false} BeBytesAt(x: nat, n: nat, i: nat)
    requires i < n
    ensures BeBytes(x, n)[i] == x / Pow256(n - 1 - i) % 0x100
  {
    if i < n - 1 {
      BeBytesAt(x / 0x100, n - 1, i);
      DivTwice(x, Pow256(n - 2 - i));
    } else {
      assert Pow256(0) == 1;
    }
  }

  /** Word i of a block is its bytes 8i to 8i + 7, the first the most significant. */
  lemma WordExact(b: seq<u8>, i: nat, k: nat)
    requires |b| == 128 && i < 16 && k < 8
    ensures Words(b)[i] / Pow256(7 - k) % 0x100 == b[8 * i + k]
  {
    var e := b[8 * i..8 * i + 8];
    BeValBytes(e);
    BeBytesAt(BeVal(e), 8, k);
  }

  lemma {:induction false} BeValBytes(b: seq<u8>)
    ensures BeBytes(BeVal(b), |b|) == b
  {
    if |b| > 0 {
      var n := |b| - 1;
      BeValBytes(b[..n]);
      LowByte(BeVal(b), b[n], BeVal(b[..n]));
      assert b == b[..n] + [b[n]];
    }
  }

  // -------------------------------------------------- compression, FIPS 180-4 6.4.2

  /** The functions of section 4.1.3 and the constants of section 4.2.3. */
  datatype Mixers = Mixers(
    bigSigma0: u64 -> u64, bigSigma1: u64 -> u64, litSigma0: u64 -> u64, litSigma1: u64 -> u64,
    ch: (u64, u64, u64) -> u64, maj: (u64, u64, u64) -> u64, k: nat -> u64)

  datatype Regs = Regs(a: u64, b: u64, c: u64, d: u64, e: u64, f: u64, g: u64, h: u64)

  function Add(a: u64, b: u64): u64
  {
    (a + b) % WORD
  }

  function Sum5(a: u64, b: u64, c: u64, d: u64, e: u64): u64
  {
    (a + b + c + d + e) % WORD
  }

  lemma AddMod(x: int, y: int, z: int)
    requires z == x % WORD
    ensures (z + y) % WORD == (x + y) % WORD
  {
    var q := x / WORD;
    assert z + y == x + y - q * WORD;
  }

  lemma SumAny(a: u64, b: u64, c: u64, d: u64, e: u64)
    ensures Add(Add(Add(a, b), c), Add(d, e)) == Sum5(a, b, c, d, e)
    ensures Add(Add(Add(Add(a, b), c), d), e) == Sum5(a, b, c, d, e)
  {
    AddMod(a + b, c, Add(a, b));
    AddMod(a + b + c, Add(d, e), Add(Add(a, b), c));
    AddMod(d + e, a + b + c, Add(d, e));
    AddMod(a + b + c, d, Add(Add(a, b), c));
    AddMod(a + b + c + d, e, Add(Add(Add(a, b), c), d));
  }

  /** The first n words of the message schedule. */
  function Expand(m: Mixers, block: seq<u64>, n: nat): (w: seq<u64>)
    requires |block| == 16 <= n
    ensures |w| == n
  {
    if n == 16 then block
    else
      var w := Expand(m, block, n - 1);
      w + [Sum5(m.litSigma1(w[n - 3]), w[n - 8], m.litSigma0(w[n - 16]), w[n - 17], 0)]
  }

  ghost predicate Extends(m: Mixers, w: seq<u64>, t: nat)
    requires 16 <= t < |w|
  {
    w[t] == Sum5(m.litSigma1(w[t - 2]), w[t - 7], m.litSigma0(w[t - 15]), w[t - 16], 0)
  }

  lemma {:induction false} ExpandFacts(m: Mixers, block: seq<u64>, n: nat)
    requires |block| == 16 <= n
    ensures Expand(m, block, n)[..16] == block
    ensures forall t :: 16 <= t < n ==> Extends(m, Expand(m, block, n), t)
  {
    if n > 16 {
      ExpandFacts(m, block, n - 1);
      var v, w := Expand(m, block, n - 1), Expand(m, block, n);
      assert w[..n - 1] == v && w[..16] == v[..16];
      forall t | 16 <= t < n - 1
        ensures Extends(m, w, t)
      {
        assert Extends(m, v, t);
      }
    }
  }

  function Round(m: Mixers, r: Regs, k: u64, w: u64): Regs
  {
    var t1 := Sum5(r.h, m.bigSigma1(r.e), m.ch(r.e, r.f, r.g), k, w);
    var t2 := Add(m.bigSigma0(r.a), m.maj(r.a, r.b, r.c));
    Regs(Add(t1, t2), r.a, r.b, r.c, Add(r.d, t1), r.e, r.f, r.g)
  }

  function Rounds(m: Mixers, w: seq<u64>, r: Regs, n: nat): Regs
    requires n <= |w|
  {
    if n == 0 then r else Round(m, Rounds(m, w, r, n - 1), m.k(n - 1), w[n - 1])
  }

  function Feed(x: Regs, y: Regs): Regs
  {
    Regs(Add(x.a, y.a), Add(x.b, y.b), Add(x.c, y.c), Add(x.d, y.d),
         Add(x.e, y.e), Add(x.f, y.f), Add(x.g, y.g), Add(x.h, y.h))
  }

  function Compress(m: Mixers, r: Regs, block: seq<u64>): Regs
    requires |block| == 16
  {
    Feed(r, Rounds(m, Expand(m, block, 80), r, 80))
  }

  /** w is the message schedule: the block, then sixty-four words by the recurrence, whose
      sums are taken modulo 2^64. */
  ghost predicate IsSchedule(m: Mixers, block: seq<u64>, w: seq<u64>)
  {
    && |block| == 16 && |w| == 80 && w[..16] == block
    && forall t :: 16 <= t < 80 ==> ScheduleAt(m, w, t)
  }

  ghost predicate ScheduleAt(m: Mixers, w: seq<u64>, t: nat)
    requires 16 <= t < |w|
  {
    w[t] == (m.litSigma1(w[t - 2]) + w[t - 7] + m.litSigma0(w[t - 15]) + w[t - 16]) % 0x1_0000_0000_0000_0000
  }

  /** s are the working variables before and after each of the eighty rounds. */
  ghost predicate IsTrace(m: Mixers, w: seq<u64>, r: Regs, s: seq<Regs>)
    requires |w| == 80
  {
    |s| == 81 && s[0] == r && forall t :: 0 <= t < 80 ==> RoundAt(m, w, s, t)
  }

  ghost predicate RoundAt(m: Mixers, w: seq<u64>, s: seq<Regs>, t: nat)
    requires t < |w| && t + 1 < |s|
  {
    var (x, y) := (s[t], s[t + 1]);
    var t1 := x.h + m.bigSigma1(x.e) + m.ch(x.e, x.f, x.g) + m.k(t) + w[t];
    var t2 := m.bigSigma0(x.a) + m.maj(x.a, x.b, x.c);
    && y.b == x.a && y.c == x.b && y.d == x.c && y.f == x.e && y.g == x.f && y.h == x.g
    && y.a == (t1 + t2) % 0x1_0000_0000_0000_0000 && y.e == (x.d + t1) % 0x1_0000_0000_0000_0000
  }

  /** The compression function as section 6.4.2 writes it: the schedule, eighty rounds on
      the hash value, and their outcome added to it. */
  lemma CompressExact(m: Mixers, r: Regs, block: seq<u64>, w: seq<u64>, s: seq<Regs>)
    requires |block| == 16 && IsSchedule(m, block, w) && IsTrace(m, w, r, s)
    ensures var (t, y) := (Compress(m, r, block), s[80]);
            && t.a == (r.a + y.a) % 0x1_0000_0000_0000_0000 && t.b == (r.b + y.b) % 0x1_0000_0000_0000_0000
            && t.c == (r.c + y.c) % 0x1_0000_0000_0000_0000 && t.d == (r.d + y.d) % 0x1_0000_0000_0000_0000
            && t.e == (r.e + y.e) % 0x1_0000_0000_0000_0000 && t.f == (r.f + y.f) % 0x1_0000_0000_0000_0000
            && t.g == (r.g + y.g) % 0x1_0000_0000_0000_0000 && t.h == (r.h + y.h) % 0x1_0000_0000_0000_0000
  {
    CompressFeeds(m, r, block, w, s);
    FeedSums(r, s[80]);
  }

  lemma CompressFeeds(m: Mixers, r: Regs, block: seq<u64>, w: seq<u64>, s: seq<Regs>)
    requires |block| == 16 && IsSchedule(m, block, w) && IsTrace(m, w, r, s)
    ensures Compress(m, r, block) == Feed(r, s[80])
  {
    ScheduleFound(m, block, w, 80);
    assert w[..80] == w;
    TraceFound(m, w, r, s, 80);
  }

  lemma FeedSums(x: Regs, y: Regs)
    ensures var t := Feed(x, y);
            && t.a == (x.a + y.a) % 0x1_0000_0000_0000_0000 && t.b == (x.b + y.b) % 0x1_0000_0000_0000_0000
            && t.c == (x.c + y.c) % 0x1_0000_0000_0000_0000 && t.d == (x.d + y.d) % 0x1_0000_0000_0000_0000
            && t.e == (x.e + y.e) % 0x1_0000_0000_0000_0000 && t.f == (x.f + y.f) % 0x1_0000_0000_0000_0000
            && t.g == (x.g + y.g) % 0x1_0000_0000_0000_0000 && t.h == (x.h + y.h) % 0x1_0000_0000_0000_0000
  {
  }

  lemma {:induction false} ScheduleFound(m: Mixers, block: seq<u64>, w: seq<u64>, n: nat)
    requires IsSchedule(m, block, w) && 16 <= n <= 80
    ensures Expand(m, block, n) == w[..n]
  {
    if n > 16 {
      ScheduleFound(m, block, w, n - 1);
      assert ScheduleAt(m, w, n - 1);
      assert w[..n] == w[..n - 1] + [w[n - 1]];
    }
  }

  lemma {:induction false} TraceFound(m: Mixers, w: seq<u64>, r: Regs, s: seq<Regs>, n: nat)
    requires |w| == 80 && IsTrace(m, w, r, s) && n <= 80
    ensures Rounds(m, w, r, n) == s[n]
  {
    if n > 0 {
      TraceFound(m, w, r, s, n - 1);
      assert RoundAt(m, w, s, n - 1);
      RoundFound(m, w, s, n - 1);
    }
  }

  lemma RoundFound(m: Mixers, w: seq<u64>, s: seq<Regs>, t: nat)
    requires t < |w| && t + 1 < |s| && RoundAt(m, w, s, t)
    ensures Round(m, s[t], m.k(t), w[t]) == s[t + 1]
  {
    var x := s[t];
    var t1 := x.h + m.bigSigma1(x.e) + m.ch(x.e, x.f, x.g) + m.k(t) + w[t];
    var t2 := m.bigSigma0(x.a) + m.maj(x.a, x.b, x.c);
    AddMod(t1, t2, t1 % WORD);
    AddMod(t2, t1 % WORD, t2 % WORD);
    AddMod(t1, x.d, t1 % WORD);
  }

  /** The compression function as a value, for the parts that work with any. */
  type Compression = (Regs, seq<u64>) -> Regs

  function CompressionOf(m: Mixers): Compression
  {
    (r: Regs, block: seq<u64>) => if |block| == 16 then Compress(m, r, block) else r
  }

  ghost predicate Implements(m: Mixers, compress: Compression)
  {
    forall r, block {:trigger Compress(m, r, block)} :: |block| == 16 ==> compress(r, block) == Compress(m, r, block)
  }

  function Load(h: seq<u64>): Regs
    requires |h| == 8
  {
    Regs(h[0], h[1], h[2], h[3], h[4], h[5], h[6], h[7])
  }

  /** One round with every sum reduced as it is formed, in the order the code adds. */
  lemma RoundMod(m: Mixers, r: Regs, k: u64, w: u64)
    ensures var t1 := Add(Add(Add(m.bigSigma1(r.e), m.ch(r.e, r.f, r.g)), r.h), Add(k, w));
            var t2 := Add(m.bigSigma0(r.a), m.maj(r.a, r.b, r.c));
            Round(m, r, k, w) == Regs(Add(t1, t2), r.a, r.b, r.c, Add(r.d, t1), r.e, r.f, r.g)
  {
    SumAny(m.bigSigma1(r.e), m.ch(r.e, r.f, r.g), r.h, k, w);
  }

  /** Slot k of the sixteen-word rolling schedule when the next word is number i16 + j. */
  ghost predicate Rolling(w: seq<u64>, input: seq<u64>, i16: nat, j: nat, k: nat)
    requires |input| == 16 && 16 <= i16 && k < 16
  {
    var t := if k < j then i16 + k else i16 - 16 + k;
    t < |w| && input[k] == w[t]
  }

  ghost predicate AllRolling(w: seq<u64>, input: seq<u64>, i16: nat, j: nat)
    requires |input| == 16 && 16 <= i16
  {
    forall k :: 0 <= k < 16 ==> Rolling(w, input, i16, j, k)
  }

  /** Updating slot j from its neighbours turns word t - 16 into word t. */
  lemma RollingStep(m: Mixers, w: seq<u64>, input: seq<u64>, i16: nat, j: nat)
    requires |input| == 16 && 16 <= i16 && j < 16 && i16 + j < |w|
    requires AllRolling(w, input, i16, j)
    requires Extends(m, w, i16 + j)
    ensures Add(Add(Add(input[j], m.litSigma1(input[(j + 14) % 16])), m.litSigma0(input[(j + 1) % 16])),
                input[(j + 9) % 16])
            == w[i16 + j]
  {
    var t := i16 + j;
    assert Rolling(w, input, i16, j, j);
    assert Rolling(w, input, i16, j, (j + 14) % 16) && input[(j + 14) % 16] == w[t - 2];
    assert Rolling(w, input, i16, j, (j + 1) % 16) && input[(j + 1) % 16] == w[t - 15];
    assert Rolling(w, input, i16, j, (j + 9) % 16) && input[(j + 9) % 16] == w[t - 7];
    ScheduleSum(w[t - 16], m.litSigma1(w[t - 2]), m.litSigma0(w[t - 15]), w[t - 7]);
  }

  lemma RollingUpdate(w: seq<u64>, before: seq<u64>, after: seq<u64>, i16: nat, j: nat)
    requires |before| == |after| == 16 && 16 <= i16 && j < 16 && i16 + j < |w|
    requires AllRolling(w, before, i16, j)
    requires after == before[j := w[i16 + j]]
    ensures AllRolling(w, after, i16, j + 1)
  {
    var next := j + 1;
    forall k | 0 <= k < 16
      ensures Rolling(w, after, i16, next, k)
    {
      assert Rolling(w, before, i16, j, k);
    }
  }

  lemma RollingStart(w: seq<u64>, input: seq<u64>)
    requires |input| == 16 <= |w| && w[..16] == input
    ensures AllRolling(w, input, 16, 0)
  {
  }

  lemma RollingWrap(w: seq<u64>, input: seq<u64>, i16: nat)
    requires |input| == 16 && 16 <= i16 <= |w|
    requires AllRolling(w, input, i16, 16)
    ensures AllRolling(w, input, i16 + 16, 0)
  {
    var next, none := i16 + 16, 0;
    forall k | 0 <= k < 16
      ensures Rolling(w, input, next, none, k)
    {
      assert Rolling(w, input, i16, 16, k);
    }
  }

  lemma ScheduleSum(a: u64, b: u64, c: u64, d: u64)
    ensures Add(Add(Add(a, b), c), d) == Sum5(b, d, c, a, 0)
  {
    SumAny(a, b, c, d, 0);
  }

  // --------------------------------------------------------- padding, section 5.1.2

  /** The length of n bytes, in bits, as sixteen big-endian bytes. */
  function LengthBytes(n: nat): (b: seq<u8>)
    ensures |b| == 16
  {
    BeBytes((8 * n) % BITS, 16)
  }

  function PadWith(msg: seq<u8>, length: seq<u8>): (p: seq<u8>)
    requires |length| == 16
    ensures |p| % 128 == 0
  {
    msg + [0x80] + Zeros((111 - |msg|) % 128) + length
  }

  function Padded(msg: seq<u8>): (p: seq<u8>)
    ensures |p| % 128 == 0
  {
    PadWith(msg, LengthBytes(|msg|))
  }

  /** The padding is a one bit, the fewest zero bits that make whole 1024-bit blocks, and
      the bit length, so a message is recovered from its padded form. */
  lemma PaddingInjective(x: seq<u8>, y: seq<u8>)
    requires 8 * |x| < BITS && 8 * |y| < BITS && Padded(x) == Padded(y)
    ensures x == y
  {
    PaddedLength(x, Padded(x));
    PaddedLength(y, Padded(y));
    assert x == Padded(x)[..|x|] && y == Padded(y)[..|y|];
  }

  lemma PaddedLength(x: seq<u8>, p: seq<u8>)
    requires 8 * |x| < BITS && p == Padded(x)
    ensures |p| >= 16 && BeVal(p[|p| - 16..]) == 8 * |x|
  {
    LengthValue(|x|);
  }

  /** The padded form on its bytes: the message, 0x80, zeros, and sixteen bytes of length;
      it is the least whole number of blocks that holds these. */
  lemma PaddingExact(x: seq<u8>)
    ensures var p := Padded(x);
            && |x| + 17 <= |p| < |x| + 17 + 128 && |p| % 128 == 0
            && p[..|x|] == x && p[|x|] == 0x80
            && (forall i :: |x| < i < |p| - 16 ==> p[i] == 0)
            && p[|p| - 16..] == LengthBytes(|x|)
  {
    PadExact(x, LengthBytes(|x|));
  }

  lemma PadExact(x: seq<u8>, length: seq<u8>)
    requires |length| == 16
    ensures var p := PadWith(x, length);
            && |x| + 17 <= |p| < |x| + 17 + 128 && |p| % 128 == 0
            && p[..|x|] == x && p[|x|] == 0x80
            && (forall i :: |x| < i < |p| - 16 ==> p[i] == 0)
            && p[|p| - 16..] == length
  {
  }

  /** These are the length in bits, the most significant byte first. */
  lemma LengthExact(n: nat, i: nat)
    requires 8 * n < BITS && i < 16
    ensures LengthBytes(n)[i] == 8 * n / Pow256(15 - i) % 0x100
  {
    var bits := (8 * n) % BITS;
    assert bits == 8 * n;
    BeBytesAt(bits, 16, i);
  }

  lemma LengthValue(n: nat)
    requires 8 * n < BITS
    ensures BeVal(LengthBytes(n)) == 8 * n
  {
    var bits := (8 * n) % BITS;
    assert bits == 8 * n;
    assert bits < Pow256(16) by { Pow256Small(); }
    BeBytesVal(bits, 16);
  }

  // -------------------------------------------------------------------- the digest

  /** The initial hash value, FIPS 180-4 section 5.3.5. */
  const IV: Regs := Regs(
    0x6a09e667f3bcc908, 0xbb67ae8584caa73b, 0x3c6ef372fe94f82b, 0xa54ff53a5f1d36f1,
    0x510e527fade682d1, 0x9b05688c2b3e6c1f, 0x1f83d9abfb41bd6b, 0x5be0cd19137e2179)

  /** v is the fraction of the square root of p, to 64 places, w its whole part. */
  ghost predicate RootFraction(p: int, w: int, v: u64)
  {
    (w * WORD + v) * (w * WORD + v) <= p * BITS < (w * WORD + v + 1) * (w * WORD + v + 1)
  }

  /** As the standard defines it: the fractions of the square roots of the first eight primes. */
  lemma IvExact()
    ensures RootFraction(2, 1, IV.a) && RootFraction(3, 1, IV.b) && RootFraction(5, 2, IV.c)
    ensures RootFraction(7, 2, IV.d) && RootFraction(11, 3, IV.e) && RootFraction(13, 3, IV.f)
    ensures RootFraction(17, 4, IV.g) && RootFraction(19, 4, IV.h)
  {
  }

  /** A whole number of blocks as words, section 5.2.2. */
  function Parse(bytes: seq<u8>): (b: seq<seq<u64>>)
    requires |bytes| % 128 == 0
    ensures |b| == |bytes| / 128
  {
    seq(|bytes| / 128, i requires 0 <= i < |bytes| / 128 => Words(bytes[128 * i..128 * i + 128]))
  }

  /** The hash value after some blocks, section 6.4.2. */
  function Chain(compress: Compression, blocks: seq<seq<u64>>): Regs
  {
    if |blocks| == 0 then IV else compress(Chain(compress, blocks[..|blocks| - 1]), blocks[|blocks| - 1])
  }

  function Fold(compress: Compression, bytes: seq<u8>): Regs
    requires |bytes| % 128 == 0
  {
    Chain(compress, Parse(bytes))
  }

  function Unload(r: Regs): (h: seq<u64>)
    ensures |h| == 8
  {
    [r.a, r.b, r.c, r.d, r.e, r.f, r.g, r.h]
  }

  function BeWords(h: seq<u64>): (b: seq<u8>)
    ensures |b| == 8 * |h|
  {
    if |h| == 0 then [] else BeWords(h[..|h| - 1]) + BeBytes(h[|h| - 1], 8)
  }

  function Digest(compress: Compression, msg: seq<u8>): (d: seq<u8>)
    ensures |d| == 64
  {
    BeWords(Unload(Fold(compress, Padded(msg))))
  }

  lemma WithinFirst(a: seq<u8>, b: seq<u8>, lo: nat, hi: nat)
    requires lo <= hi <= |a|
    ensures (a + b)[lo..hi] == a[lo..hi]
  {
  }

  lemma {:induction false} BeWordsAt(h: seq<u64>, i: nat)
    requires i < |h|
    ensures BeWords(h)[8 * i..8 * i + 8] == BeBytes(h[i], 8)
  {
    if i < |h| - 1 {
      BeWordsAt(h[..|h| - 1], i);
      WithinFirst(BeWords(h[..|h| - 1]), BeBytes(h[|h| - 1], 8), 8 * i, 8 * i + 8);
    }
  }

  /** The digest is the eight words of the last hash value in turn, each with its most
      significant byte first. */
  lemma DigestExact(compress: Compression, msg: seq<u8>, i: nat, k: nat)
    requires i < 8 && k < 8
    ensures var r := Fold(compress, Padded(msg));
            var words := [r.a, r.b, r.c, r.d, r.e, r.f, r.g, r.h];
            Digest(compress, msg)[8 * i + k] == words[i] / Pow256(7 - k) % 0x100
    ensures Fold(compress, []) == IV
  {
    var h := Unload(Fold(compress, Padded(msg)));
    BeWordsAt(h, i);
    BeBytesAt(h[i], 8, k);
    assert BeWords(h)[8 * i + k] == BeWords(h)[8 * i..8 * i + 8][k];
  }

  lemma ParseBlock(bytes: seq<u8>, block: seq<u8>)
    requires |bytes| % 128 == 0 && |block| == 128
    ensures Parse(bytes + block) == Parse(bytes) + [Words(block)]
  {
    var n := |bytes| / 128;
    forall i | 0 <= i < n
      ensures (bytes + block)[128 * i..128 * i + 128] == bytes[128 * i..128 * i + 128]
    {
    }
    assert (bytes + block)[128 * n..128 * n + 128] == block;
  }

  lemma FoldBlock(compress: Compression, bytes: seq<u8>, block: seq<u8>)
    requires |bytes| % 128 == 0 && |block| == 128
    ensures Fold(compress, bytes + block) == compress(Fold(compress, bytes), Words(block))
  {
    ParseBlock(bytes, block);
    assert (Parse(bytes) + [Words(block)])[..|Parse(bytes)|] == Parse(bytes);
  }

  lemma Regroup(whole: seq<u8>, tail: seq<u8>, one: seq<u8>, zeros: seq<u8>, length: seq<u8>)
    ensures (whole + tail) + one + zeros + length == whole + (tail + one + zeros + length)
  {
  }

  lemma RegroupTwo(whole: seq<u8>, tail: seq<u8>, one: seq<u8>, zeros: seq<u8>, more: seq<u8>, length: seq<u8>)
    ensures (whole + tail) + one + (zeros + more) + length == whole + (tail + one + zeros) + (more + length)
  {
  }

  /** The padded message in blocks, when the length still fits beside the tail. */
  lemma ShortTail(compress: Compression, whole: seq<u8>, tail: seq<u8>, length: seq<u8>)
    requires |whole| % 128 == 0 && |tail| <= 111 && |length| == 16
    ensures Fold(compress, PadWith(whole + tail, length)) ==
            compress(Fold(compress, whole), Words(tail + [0x80] + Zeros(111 - |tail|) + length))
  {
    assert (111 - |whole + tail|) % 128 == 111 - |tail|;
    Regroup(whole, tail, [0x80], Zeros(111 - |tail|), length);
    FoldBlock(compress, whole, tail + [0x80] + Zeros(111 - |tail|) + length);
  }

  /** And when the length needs a block of its own. */
  lemma LongTail(compress: Compression, whole: seq<u8>, tail: seq<u8>, length: seq<u8>)
    requires |whole| % 128 == 0 && 111 < |tail| < 128 && |length| == 16
    ensures Fold(compress, PadWith(whole + tail, length)) ==
            compress(compress(Fold(compress, whole), Words(tail + [0x80] + Zeros(127 - |tail|))),
                     Words(Zeros(112) + length))
  {
    var t := |tail|;
    assert (111 - |whole + tail|) % 128 == 239 - t;
    assert Zeros(239 - t) == Zeros(127 - t) + Zeros(112);
    RegroupTwo(whole, tail, [0x80], Zeros(127 - t), Zeros(112), length);
    TwoBlocks(compress, whole, tail + [0x80] + Zeros(127 - t), Zeros(112) + length);
  }

  lemma TwoBlocks(compress: Compression, whole: seq<u8>, first: seq<u8>, last: seq<u8>)
    requires |whole| % 128 == 0 && |first| == |last| == 128
    ensures Fold(compress, whole + first + last) == compress(compress(Fold(compress, whole), Words(first)), Words(last))
  {
    FoldBlock(compress, whole, first);
    FoldBlock(compress, whole + first, last);
  }

  // ------------------------------------------------------------- buffer as words

  lemma {:induction false} Pow2Bytes(n: nat)
    ensures Pow2(8 * n) == Pow256(n)
  {
    if n > 0 {
      Pow2Bytes(n - 1);
      var k := 8 * (n - 1);
      assert Pow2(k + 2) == 4 * Pow2(k) && Pow2(k + 4) == 4 * Pow2(k + 2);
      assert Pow2(k + 6) == 4 * Pow2(k + 4) && Pow2(k + 8) == 4 * Pow2(k + 6);
    }
  }

  lemma OrLow256(v: nat, b: u8)
    ensures Or(0x100 * v, b) == 0x100 * v + b
  {
    OrLow(v, b, 8);
    assert Pow2(8) == 0x100;
  }

  lemma OrShifted(v: nat, b: u8, n: nat, x: nat, y: nat)
    requires x == 0x100 * v && y == 0x100 * v + b
    ensures Or(x * Pow2(n), b * Pow2(n)) == y * Pow2(n)
  {
    OrShift(x, b, n);
    OrLow256(v, b);
  }

  lemma BeValPadded(lead: seq<u8>, rest: seq<u8>)
    requires forall i :: 0 <= i < |rest| ==> rest[i] == 0
    ensures BeVal(lead + rest) == BeVal(lead) * Pow256(|rest|)
  {
    BeValZeros(rest);
    BeValAppend(lead, rest);
  }

  lemma BeValSnoc(head: seq<u8>, b: u8)
    ensures BeVal(head + [b]) == 0x100 * BeVal(head) + b
  {
    assert (head + [b])[..|head|] == head;
  }

  /** Or-ing a byte into a word whose remaining bytes are clear writes that byte. */
  lemma OrByte(x: seq<u8>, k: nat, b: u8)
    requires |x| == 8 && k < 8 && forall j :: k <= j < 8 ==> x[j] == 0
    ensures Or(BeVal(x), b * Pow2(8 * (7 - k))) == BeVal(x[k := b])
  {
    var head, rest := x[..k], x[k + 1..];
    Pow2Bytes(7 - k);
    assert x == head + [0] + rest && x[k := b] == head + [b] + rest;
    BeValSnoc(head, 0);
    BeValSnoc(head, b);
    BeValPadded(head + [0], rest);
    BeValPadded(head + [b], rest);
    OrShifted(BeVal(head), b, 8 * (7 - k), BeVal(head + [0]), BeVal(head + [b]));
  }

  /** A buffer whose tail is clear, as the words that hold it. */
  function Block(pending: seq<u8>): (b: seq<u8>)
    requires |pending| <= 128
    ensures |b| == 128
  {
    pending + Zeros(128 - |pending|)
  }

  lemma BlockSnoc(pending: seq<u8>, b: u8, w: nat, k: nat, u: seq<u8>)
    requires |pending| < 128 && w == |pending| / 8 && k == |pending| % 8 && u == Block(pending)[8 * w..8 * w + 8]
    ensures Block(pending + [b]) == Block(pending)[|pending| := b]
    ensures |u| == 8 && (forall j :: k <= j < 8 ==> u[j] == 0) && Block(pending + [b])[8 * w..8 * w + 8] == u[k := b]
  {
    assert Block(pending + [b]) == Block(pending)[|pending| := b];
  }

  lemma OrIntoBlock(pending: seq<u8>, b: u8, words: seq<u64>, w: nat, k: nat)
    requires |pending| < 128 && words == Words(Block(pending)) && w == |pending| / 8 && k == |pending| % 8
    ensures |words| == 16 && w < 16
    ensures var v := Or(words[w], b * Pow2(8 * (7 - k))); v < WORD && Words(Block(pending + [b])) == words[w := v]
  {
    var x, y := Block(pending), Block(pending + [b]);
    var u: seq<u8> := x[8 * w..8 * w + 8];
    BlockSnoc(pending, b, w, k, u);
    OrByte(u, k, b);
    SameElsewhere(x, y, w, Word(u[k := b]));
  }

  lemma SameElsewhere(x: seq<u8>, y: seq<u8>, w: nat, v: u64)
    requires |x| == |y| == 128 && w < 16 && v == Word(y[8 * w..8 * w + 8])
    requires forall j :: 0 <= j < 128 && !(8 * w <= j < 8 * w + 8) ==> x[j] == y[j]
    ensures Words(y) == Words(x)[w := v]
  {
    forall i | 0 <= i < 16 && i != w
      ensures Words(y)[i] == Words(x)[i]
    {
      assert y[8 * i..8 * i + 8] == x[8 * i..8 * i + 8];
    }
  }

  lemma WordsIntoBlock(pending: seq<u8>, src: seq<u8>, words: seq<u64>)
    requires |pending| % 8 == 0 && |src| % 8 == 0 && |pending| + |src| <= 128
    requires |words| == 16
    requires forall i :: 0 <= i < |src| / 8 ==> words[|pending| / 8 + i] == Word(src[8 * i..8 * i + 8])
    requires forall i :: 0 <= i < 16 && !(|pending| / 8 <= i < (|pending| + |src|) / 8) ==>
               words[i] == Words(Block(pending))[i]
    ensures words == Words(Block(pending + src))
  {
    var x, y, w := Block(pending), Block(pending + src), |pending| / 8;
    forall i | 0 <= i < 16
      ensures words[i] == Words(y)[i]
    {
      if w <= i < (|pending| + |src|) / 8 {
        BlockInside(pending, src, 8 * i);
        assert words[w + (i - w)] == Word(src[8 * (i - w)..8 * (i - w) + 8]);
      } else {
        BlockOutside(pending, src, 8 * i);
      }
    }
  }

  lemma BlockInside(pending: seq<u8>, src: seq<u8>, k: nat)
    requires |pending| + |src| <= 128 && |pending| <= k && k + 8 <= |pending| + |src|
    ensures Block(pending + src)[k..k + 8] == src[k - |pending|..k - |pending| + 8]
  {
  }

  lemma BlockOutside(pending: seq<u8>, src: seq<u8>, k: nat)
    requires |pending| + |src| <= 128 && k + 8 <= 128 && (k + 8 <= |pending| || k >= |pending| + |src|)
    ensures Block(pending + src)[k..k + 8] == Block(pending)[k..k + 8]
  {
    var x, y := Block(pending), Block(pending + src);
    assert forall j :: k <= j < k + 8 ==> y[j] == x[j];
  }

  lemma SizeBytes(hi: u64, lo: u64)
    ensures BeBytes(hi * WORD + lo, 16) == BeBytes(hi, 8) + BeBytes(lo, 8)
    ensures Word(BeBytes(hi, 8)) == hi && Word(BeBytes(lo, 8)) == lo
  {
    Pow256Small();
    BeBytesPair(hi, lo, 8, 8);
    BeBytesVal(hi, 8);
    BeBytesVal(lo, 8);
  }

  /** The two size words are the last sixteen bytes of the block. */
  lemma LengthWords(lead: seq<u8>, hi: u64, lo: u64, words: seq<u64>)
    requires |lead| == 112 && |words| == 16 && words[14] == hi && words[15] == lo
    requires forall i :: 0 <= i < 14 ==> words[i] == Words(lead + Zeros(16))[i]
    ensures words == Words(lead + BeBytes(hi * WORD + lo, 16))
  {
    var b := lead + BeBytes(hi * WORD + lo, 16);
    SizeBytes(hi, lo);
    assert b[112..120] == BeBytes(hi, 8) && b[120..128] == BeBytes(lo, 8);
    forall i | 0 <= i < 14
      ensures words[i] == Words(b)[i]
    {
      assert b[8 * i..8 * i + 8] == (lead + Zeros(16))[8 * i..8 * i + 8];
    }
  }

  // ------------------------------------------------------------------ the context

  /** The least number of bytes that take x to a multiple of p. */
  function Align(x: nat, p: nat): (y: nat)
    requires p == 8 || p == 128
    ensures (x + y) % p == 0 && y < p
  {
    if p == 8 then (0 - x) % 8 else (0 - x) % 128
  }

  /** Read n big-endian words into part of an array. */
  method Load64BeBuf(dst: array<u64>, at: nat, src: seq<u8>, n: nat)
    requires at + n <= dst.Length && 8 * n <= |src|
    modifies dst
    ensures forall i :: 0 <= i < n ==> dst[at + i] == Word(src[8 * i..8 * i + 8])
    ensures forall i :: 0 <= i < dst.Length && !(at <= i < at + n) ==> dst[i] == old(dst[i])
  {
    for j := 0 to n
      invariant forall i :: 0 <= i < j ==> dst[at + i] == Word(src[8 * i..8 * i + 8])
      invariant forall i :: 0 <= i < dst.Length && !(at <= i < at + j) ==> dst[i] == old(dst[i])
    {
      dst[at + j] := Word(src[8 * j..8 * j + 8]);
    }
  }

  /** The carry out of the low word shows as a sum below what was added. */
  lemma CarryIn(hi: u64, lo: u64, y: u64, low: u64)
    requires low == Add(lo, y)
    ensures (if low < y then Add(hi, 1) else hi) * WORD + low == (hi * WORD + lo + y) % BITS
  {
    var sum := hi * WORD + lo + y;
    if lo + y < WORD {
      assert low == lo + y && low >= y;
      assert 0 <= sum < BITS;
    } else {
      assert low == lo + y - WORD && low < y;
      if hi + 1 < WORD {
        assert 0 <= sum < BITS;
      } else {
        assert 0 <= sum - BITS < BITS;
      }
    }
  }

  /** Add to a 128-bit number kept in two words, high word first. */
  method Incr(x: array<u64>, y: u64)
    requires x.Length == 2
    modifies x
    ensures x[0] * WORD + x[1] == (old(x[0]) * WORD + old(x[1]) + y) % BITS
  {
    CarryIn(x[0], x[1], y, Add(x[1], y));
    x[1] := Add(x[1], y);
    if x[1] < y {
      x[0] := Add(x[0], 1);
    }
  }

  class Context {
    const mixers: Mixers
    ghost const compress: Compression
    const hash: array<u64>
    const input: array<u64>
    const inputSize: array<u64>
    var inputIdx: nat
    ghost var done: seq<u8>     // bytes already compressed
    ghost var pending: seq<u8>  // bytes waiting in the input block

    ghost predicate Shape()
      reads this
    {
      && hash.Length == 8 && input.Length == 16 && inputSize.Length == 2
      && hash != input && input != inputSize && hash != inputSize && Implements(mixers, compress)
    }

    ghost predicate Buffered()
      reads this, input
    {
      Shape() && |pending| == inputIdx <= 128 && input[..] == Words(Block(pending))
    }

    ghost predicate Counted()
      reads this, hash, inputSize
    {
      && Shape() && |done| % 128 == 0 && Load(hash[..]) == Fold(compress, done)
      && inputSize[0] * WORD + inputSize[1] == (8 * |done|) % BITS
    }

    ghost predicate Valid()
      reads this, hash, input, inputSize
    {
      Buffered() && Counted() && inputIdx < 128
    }

    ghost function Message(): seq<u8>
      reads this
    {
      done + pending
    }

    constructor (mixers: Mixers, ghost compress: Compression)
      requires Implements(mixers, compress)
      ensures Valid() && Message() == [] && this.mixers == mixers && this.compress == compress
      ensures fresh(hash) && fresh(input) && fresh(inputSize)
    {
      this.mixers := mixers;
      this.compress := compress;
      hash := new u64[] [IV.a, IV.b, IV.c, IV.d, IV.e, IV.f, IV.g, IV.h];
      input := new u64[16](i => 0);
      inputSize := new u64[2](i => 0);
      inputIdx := 0;
      done, pending := [], [];
      new;
      ZeroBlock(input[..]);
    }

    static lemma ZeroBlock(words: seq<u64>)
      requires |words| == 16 && forall i :: 0 <= i < 16 ==> words[i] == 0
      ensures words == Words(Block([]))
    {
      forall i | 0 <= i < 16
        ensures Words(Block([]))[i] == 0
      {
        BeValZeros(Block([])[8 * i..8 * i + 8]);
      }
    }

    /** The 80 rounds, with the schedule rolled through the input block it overwrites. */
    method CompressBlock()
      requires Shape()
      modifies hash, input
      ensures Load(hash[..]) == compress(old(Load(hash[..])), old(input[..]))
    {
      ghost var w, start := Expand(mixers, input[..], 80), Load(hash[..]);
      assert compress(start, input[..]) == Compress(mixers, start, input[..]);
      ExpandFacts(mixers, input[..], 80);
      var r := EarlyRounds(w);
      r := LateRounds(w, start, r);
      hash[0], hash[1], hash[2], hash[3] := Add(hash[0], r.a), Add(hash[1], r.b), Add(hash[2], r.c), Add(hash[3], r.d);
      hash[4], hash[5], hash[6], hash[7] := Add(hash[4], r.e), Add(hash[5], r.f), Add(hash[6], r.g), Add(hash[7], r.h);
    }

    method EarlyRounds(ghost w: seq<u64>) returns (r: Regs)
      requires Shape() && |w| == 80 && w[..16] == input[..]
      ensures r == Rounds(mixers, w, Load(hash[..]), input.Length)
    {
      r := Load(hash[..]);
      for j := 0 to 16
        invariant r == Rounds(mixers, w, Load(hash[..]), j)
      {
        assert input[j] == w[j];
        r := MixedWith(r, mixers.k(j), input[j]);
      }
    }

    method LateRounds(ghost w: seq<u64>, ghost start: Regs, from: Regs) returns (r: Regs)
      requires Shape() && |w| == 80 && w[..16] == input[..] && from == Rounds(mixers, w, start, input.Length)
      requires forall t :: 16 <= t < 80 ==> Extends(mixers, w, t)
      modifies input
      ensures r == Rounds(mixers, w, start, |w|)
    {
      r := from;
      RollingStart(w, input[..]);
      var i16 := 0;
      for i := 1 to 5
        invariant i16 == 16 * (i - 1)
        invariant r == Rounds(mixers, w, start, i16 + 16)
        invariant AllRolling(w, input[..], i16 + 16, 0)
      {
        i16 := i16 + 16;
        r := SixteenRounds(w, start, i16, r);
      }
    }

    method SixteenRounds(ghost w: seq<u64>, ghost start: Regs, i16: nat, from: Regs) returns (r: Regs)
      requires Shape() && |w| == 80 && 16 <= i16 <= 64 && from == Rounds(mixers, w, start, i16)
      requires AllRolling(w, input[..], i16, 0)
      requires forall t :: 16 <= t < 80 ==> Extends(mixers, w, t)
      modifies input
      ensures r == Rounds(mixers, w, start, i16 + 16) && AllRolling(w, input[..], i16 + 16, 0)
    {
      r := from;
      for j := 0 to 16
        invariant r == Rounds(mixers, w, start, i16 + j)
        invariant AllRolling(w, input[..], i16, j)
      {
        assert Extends(mixers, w, i16 + j);
        NextWord(w, i16, j);
        r := MixedWith(r, mixers.k(i16 + j), input[j]);
      }
      RollingWrap(w, input[..], i16);
    }

    method NextWord(ghost w: seq<u64>, ghost i16: nat, j: nat)
      requires Shape() && 16 <= i16 && j < 16 && i16 + j < |w| && Extends(mixers, w, i16 + j)
      requires AllRolling(w, input[..], i16, j)
      modifies input
      ensures input[j] == w[i16 + j]
      ensures AllRolling(w, input[..], i16, j + 1)
    {
      RollingStep(mixers, w, input[..], i16, j);
      ghost var before := input[..];
      input[j] := Add(input[j], mixers.litSigma1(input[(j + 14) % 16]));
      input[j] := Add(input[j], mixers.litSigma0(input[(j + 1) % 16]));
      input[j] := Add(input[j], input[(j + 9) % 16]);
      RollingUpdate(w, before, input[..], i16, j);
    }

    method MixedWith(r: Regs, k: u64, w: u64) returns (n: Regs)
      ensures n == Round(mixers, r, k, w)
    {
      var word := Add(k, w);
      var t1 := Add(Add(Add(mixers.bigSigma1(r.e), mixers.ch(r.e, r.f, r.g)), r.h), word);
      var t2 := Add(mixers.bigSigma0(r.a), mixers.maj(r.a, r.b, r.c));
      RoundMod(mixers, r, k, w);
      n := Regs(Add(t1, t2), r.a, r.b, r.c, Add(r.d, t1), r.e, r.f, r.g);
    }

    method ZeroInput(n: nat)
      requires Shape() && n <= 16
      modifies input
      ensures forall i :: 0 <= i < n ==> input[i] == 0
      ensures forall i :: n <= i < 16 ==> input[i] == old(input[i])
    {
      for j := 0 to n
        invariant forall i :: 0 <= i < j ==> input[i] == 0
        invariant forall i :: j <= i < 16 ==> input[i] == old(input[i])
      {
        input[j] := 0;
      }
    }

    /** Write one byte at the buffer position. */
    method SetInput(b: u8)
      requires Buffered() && inputIdx < 128
      modifies input
      ensures input[..] == Words(Block(pending + [b]))
    {
      var word, byte := inputIdx / 8, inputIdx % 8;
      OrIntoBlock(pending, b, input[..], word, byte);
      input[word] := Or(input[word], b * Pow2(8 * (7 - byte)));
    }

    /** Append the first n bytes of the message one at a time. */
    method AbsorbBytes(message: seq<u8>, n: nat)
      requires Buffered() && n <= |message| && inputIdx + n <= 128
      modifies `inputIdx, `pending, input
      ensures Buffered() && pending == old(pending) + message[..n]
    {
      for i := 0 to n
        invariant Buffered() && pending == old(pending) + message[..i]
      {
        SetInput(message[i]);
        inputIdx := inputIdx + 1;
        pending := pending + [message[i]];
      }
    }

    /** Append the first n words of the message at a word boundary. */
    method AbsorbWords(message: seq<u8>, n: nat)
      requires Buffered() && inputIdx % 8 == 0 && 8 * n <= |message| && inputIdx + 8 * n <= 128
      modifies `inputIdx, `pending, input
      ensures Buffered() && pending == old(pending) + message[..8 * n]
    {
      Load64BeBuf(input, inputIdx / 8, message, n);
      ghost var src := message[..8 * n];
      assert forall i :: 0 <= i < n ==> src[8 * i..8 * i + 8] == message[8 * i..8 * i + 8];
      WordsIntoBlock(pending, src, input[..]);
      inputIdx := inputIdx + 8 * n;
      pending := pending + src;
    }

    /** Compress a full buffer, count its 1024 bits and clear it. */
    method FlushBlock()
      requires Buffered() && Counted() && inputIdx == 128
      modifies this, hash, input, inputSize
      ensures Valid() && pending == [] && done == old(done) + old(pending)
    {
      assert Block(pending) == pending;
      FoldBlock(compress, done, pending);
      Incr(inputSize, 1024);
      SizeSum(|done|, 128, inputSize[0] * WORD + inputSize[1]);
      CompressBlock();
      inputIdx := 0;
      ZeroInput(16);
      ZeroBlock(input[..]);
      done, pending := done + pending, [];
    }

    /** Fill up the word the buffer position is in. */
    method FillWord(message: seq<u8>) returns (rest: seq<u8>)
      requires Valid()
      modifies `inputIdx, `pending, input
      ensures Buffered() && pending + rest == old(pending) + message
      ensures rest == [] || inputIdx % 8 == 0
    {
      rest := message;
      if inputIdx % 8 != 0 {
        var n := Min(Align(inputIdx, 8), |rest|);
        AbsorbBytes(rest, n);
        rest := rest[n..];
        assert message == message[..n] + rest;
      }
    }

    /** Fill up the block by whole words. */
    method FillBlock(message: seq<u8>) returns (rest: seq<u8>)
      requires Buffered() && (message == [] || inputIdx % 8 == 0)
      modifies `inputIdx, `pending, input
      ensures Buffered() && pending + rest == old(pending) + message
      ensures rest == [] || inputIdx % 8 == 0
      ensures |rest| >= 8 ==> inputIdx % 128 == 0
    {
      rest := message;
      if inputIdx % 128 != 0 {
        var n := Min(Align(inputIdx, 128), |rest|) / 8;
        if message != [] { FitsBlock(inputIdx, |rest|, n); }
        if n > 0 { AbsorbWords(rest, n); }
        rest := rest[8 * n..];
        assert message == message[..8 * n] + rest;
      }
    }

    static lemma FitsBlock(idx: nat, len: nat, n: nat)
      requires idx < 128 && idx % 8 == 0 && idx > 0 && n == Min(Align(idx, 128), len) / 8
      ensures idx + 8 * n <= 128 && 8 * n <= len && (len - 8 * n >= 8 ==> idx + 8 * n == 128)
      ensures (idx + 8 * n) % 8 == 0
    {
      assert Align(idx, 128) == 128 - idx;
    }

    /** What is left once no whole block is. */
    method FillTail(message: seq<u8>)
      requires Valid() && |message| < 128 && (message == [] || inputIdx % 8 == 0)
      requires |message| >= 8 ==> inputIdx == 0
      modifies `inputIdx, `pending, input
      ensures Valid() && pending == old(pending) + message
    {
      if |message| != 0 {
        var n := |message| / 8;
        assert n > 0 ==> inputIdx == 0;
        AbsorbWords(message, n);
        var rest := message[8 * n..];
        assert message == message[..8 * n] + rest;
        AbsorbBytes(rest, |rest|);
        assert rest[..|rest|] == rest;
      }
    }

    method EatBlock(message: seq<u8>)
      requires Valid() && pending == [] && |message| >= 128
      modifies this, hash, input, inputSize
      ensures Valid() && pending == [] && done == old(done) + message[..128]
    {
      AbsorbWords(message, 16);
      FlushBlock();
    }

    /** Compress every whole block of the message; one is there only if the buffer is empty. */
    method EatBlocks(message: seq<u8>) returns (rest: seq<u8>)
      requires Valid() && (|message| >= 8 ==> inputIdx == 0)
      modifies this, hash, input, inputSize
      ensures Valid() && pending == old(pending) && |rest| < 128 && done + rest == old(done) + message
      ensures rest == [] || rest == message || pending == []
    {
      rest := message;
      var blocks := |message| / 128;
      for i := 0 to blocks
        invariant Valid() && pending == old(pending) && |rest| == |message| - 128 * i
        invariant rest == message || pending == []
        invariant done + rest == old(done) + message
      {
        assert rest == rest[..128] + rest[128..];
        EatBlock(rest);
        rest := rest[128..];
      }
    }

    /** Fill up the buffer, and compress it if that made it full. */
    method Fill(message: seq<u8>) returns (rest: seq<u8>)
      requires Valid()
      modifies this, hash, input, inputSize
      ensures Valid() && Message() + rest == old(Message()) + message
      ensures (rest == [] || inputIdx % 8 == 0) && (|rest| >= 8 ==> inputIdx == 0)
    {
      rest := FillWord(message);
      rest := FillBlock(rest);
      After(done, pending, rest, old(pending), message);
      if inputIdx == 128 { FlushBlock(); }
    }

    static lemma After(d: seq<u8>, p: seq<u8>, r: seq<u8>, q: seq<u8>, m: seq<u8>)
      requires p + r == q + m
      ensures d + p + r == d + q + m && d + p + [] == d + p
    {
      assert d + p + r == d + (p + r) && d + q + m == d + (q + m);
    }

    /** However the bytes arrive, they are appended to the message. */
    method Update(message: seq<u8>)
      requires Valid()
      modifies this, hash, input, inputSize
      ensures Valid() && Message() == old(Message()) + message
    {
      if |message| == 0 { return; }
      ghost var all := Message() + message;
      var rest := Fill(message);
      ghost var d, m := done, rest;
      rest := EatBlocks(rest);
      assert (d + m) + pending == (done + rest) + pending;
      Swap(d, m, done, rest, pending, all);
      FillTail(rest);
    }

    /** Appending goes on after the blocks taken from the front, as the buffer was then empty. */
    static lemma Swap(d: seq<u8>, m: seq<u8>, done: seq<u8>, rest: seq<u8>, pending: seq<u8>, all: seq<u8>)
      requires d + pending + m == all && d + m == done + rest && (pending == [] || m == rest)
      ensures done + (pending + rest) == all
    {
      if pending == [] {
        assert pending + rest == rest && d + pending == d;
      } else {
        assert d == (d + m)[..|d|] && done == (done + rest)[..|done|];
        assert d == done;
      }
    }

    /** The digest of everything absorbed: compression folded over the padded message. */
    method Final(out: array<u8>)
      requires Valid() && out.Length == 64
      modifies hash, input, inputSize, out
      ensures out[..] == Digest(compress, old(Message()))
    {
      Terminate();
      UnloadLoad(hash[..]);
      StoreHash(out);
    }

    static lemma UnloadLoad(h: seq<u64>)
      requires |h| == 8
      ensures Unload(Load(h)) == h
    {
    }

    method Terminate()
      requires Valid()
      modifies hash, input, inputSize
      ensures Load(hash[..]) == Fold(compress, Padded(done + pending))
    {
      if inputIdx == 0 {
        ZeroInput(16);
        ZeroBlock(input[..]);
      }
      SetInput(0x80);
      CountTail();
      if inputIdx > 111 {
        EndLong();
      } else {
        EndShort();
      }
    }

    /** The size words now hold the bit length of the whole message. */
    method CountTail()
      requires Counted() && inputIdx == |pending| < 128
      modifies inputSize
      ensures Length() == LengthBytes(|done + pending|)
    {
      Incr(inputSize, inputIdx * 8);
      SizeSum(|done|, |pending|, inputSize[0] * WORD + inputSize[1]);
      assert |done + pending| == |done| + |pending|;
    }

    ghost function Length(): (b: seq<u8>)
      requires Shape()
      reads this, inputSize
      ensures |b| == 16
    {
      BeBytes(inputSize[0] * WORD + inputSize[1], 16)
    }

    /** The end bit and the length share the last block. */
    method EndShort()
      requires Shape() && |pending| <= 111 && |done| % 128 == 0 && Load(hash[..]) == Fold(compress, done)
      requires input[..] == Words(Block(pending + [0x80]))
      modifies hash, input
      ensures Load(hash[..]) == Fold(compress, PadWith(done + pending, Length()))
    {
      ShortTail(compress, done, pending, Length());
      ghost var lead := pending + [0x80] + Zeros(111 - |pending|);
      assert Block(pending + [0x80]) == lead + Zeros(16);
      LastBlock(lead);
    }

    /** The length needs a block of its own. */
    method EndLong()
      requires Shape() && 111 < |pending| < 128 && |done| % 128 == 0 && Load(hash[..]) == Fold(compress, done)
      requires input[..] == Words(Block(pending + [0x80]))
      modifies hash, input
      ensures Load(hash[..]) == Fold(compress, PadWith(done + pending, Length()))
    {
      LongTail(compress, done, pending, Length());
      CompressBlock();
      ZeroInput(14);
      ZeroLead(input[..]);
      LastBlock(Zeros(112));
    }

    static lemma SizeSum(n: nat, t: nat, size: int)
      requires size == ((8 * n) % BITS + t * 8) % BITS
      ensures size == (8 * (n + t)) % BITS
    {
      var q := (8 * n) / BITS;
      assert 8 * (n + t) == q * BITS + ((8 * n) % BITS + t * 8);
    }

    static lemma ZeroLead(words: seq<u64>)
      requires |words| == 16 && forall i :: 0 <= i < 14 ==> words[i] == 0
      ensures forall i :: 0 <= i < 14 ==> words[i] == Words(Zeros(112) + Zeros(16))[i]
    {
      forall i | 0 <= i < 14
        ensures Words(Zeros(112) + Zeros(16))[i] == 0
      {
        BeValZeros((Zeros(112) + Zeros(16))[8 * i..8 * i + 8]);
      }
    }

    /** Store the bit length in the last two words and compress once more. */
    method LastBlock(ghost lead: seq<u8>)
      requires Shape() && |lead| == 112
      requires forall i :: 0 <= i < 14 ==> input[i] == Words(lead + Zeros(16))[i]
      modifies hash, input
      ensures Load(hash[..]) == compress(old(Load(hash[..])), Words(lead + Length()))
    {
      input[14] := inputSize[0];
      input[15] := inputSize[1];
      LengthWords(lead, inputSize[0], inputSize[1], input[..]);
      CompressBlock();
    }

    method StoreHash(out: array<u8>)
      requires Shape() && out.Length == 64
      modifies out
      ensures out[..] == BeWords(hash[..]) && hash[..] == old(hash[..])
    {
      ghost var words := hash[..];
      for i := 0 to 8
        invariant out[..8 * i] == BeWords(words[..i])
        invariant words == hash[..]
      {
        WriteAt(out, 8 * i, BeBytes(hash[i], 8));
        assert words[..i + 1][..i] == words[..i];
      }
      assert words[..8] == words;
    }
  }

  // -------------------------------------------------- chunked equals one-shot

  function Flatten(chunks: seq<seq<u8>>): seq<u8>
  {
    if |chunks| == 0 then [] else Flatten(chunks[..|chunks| - 1]) + chunks[|chunks| - 1]
  }

  /** For every way of cutting a message into pieces, the digest is that of the whole. */
  method HashChunks(mixers: Mixers, chunks: seq<seq<u8>>, out: array<u8>)
    requires out.Length == 64
    modifies out
    ensures out[..] == Digest(CompressionOf(mixers), Flatten(chunks))
  {
    var ctx := new Context(mixers, CompressionOf(mixers));
    for i := 0 to |chunks|
      invariant ctx.Valid() && ctx.compress == CompressionOf(mixers) && ctx.Message() == Flatten(chunks[..i])
      invariant fresh(ctx) && fresh(ctx.hash) && fresh(ctx.input) && fresh(ctx.inputSize)
    {
      ctx.Update(chunks[i]);
      assert chunks[..i + 1][..i] == chunks[..i];
    }
    assert chunks[..|chunks|] == chunks;
    ctx.Final(out);
  }

  method Hash(mixers: Mixers, message: seq<u8>, out: array<u8>)
    requires out.Length == 64
    modifies out
    ensures out[..] == Digest(CompressionOf(mixers), message)
  {
    var ctx := new Context(mixers, CompressionOf(mixers));
    ctx.Update(message);
    assert ctx.Message() == message;
    ctx.Final(out);
  }
}
