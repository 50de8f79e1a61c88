/** Signed sliding-window recoding of scalars and the double-and-add ladder that
    consumes it (lib/monocypher/monocypher.c, Ed25519 signature check). */
module Slide {
  import opened BitOps
  import opened Bytes
  import opened Groups
  import opened Limbs
  import ModL

  // ------------------------------------------------------------- powers of two

  lemma {:induction false} Pow2Add(j: nat, k: nat)
    ensures Pow2(j + k) == Pow2(j) * Pow2(k)
  {
    if k == 0 {
    } else {
      Pow2Add(j, k - 1);
      assert Pow2(j + k) == 2 * Pow2(j + (k - 1));
      assert 2 * (Pow2(j) * Pow2(k - 1)) == Pow2(j) * (2 * Pow2(k - 1));
    }
  }

  lemma {:induction false} Pow2Mono(j: nat, k: nat)
    requires j <= k
    ensures Pow2(j) <= Pow2(k)
  {
    if j < k { Pow2Mono(j, k - 1); }
  }

  lemma SmallPowers()
    ensures Pow2(0) == 1 && Pow2(1) == 2 && Pow2(2) == 4 && Pow2(3) == 8
    ensures Pow2(4) == 16 && Pow2(5) == 32 && Pow2(6) == 64 && Pow2(7) == 128 && Pow2(8) == 256
  {
  }

  /** d * 2^i, by doubling. */
  function Scaled(d: int, i: nat): int
    decreases i
  {
    if i == 0 then d else Scaled(2 * d, i - 1)
  }

  lemma {:induction false} ScaledMeaning(d: int, i: nat)
    ensures Scaled(d, i) == d * Pow2(i)
    decreases i
  {
    if i == 0 {
      assert Pow2(0) == 1;
    } else {
      ScaledMeaning(2 * d, i - 1);
      Halved(d, Pow2(i - 1));
    }
  }

  lemma {:induction false} ScaledSum(a: int, b: int, i: nat)
    ensures Scaled(a + b, i) == Scaled(a, i) + Scaled(b, i)
    decreases i
  {
    if i > 0 {
      ScaledSum(2 * a, 2 * b, i - 1);
      assert 2 * (a + b) == 2 * a + 2 * b;
    }
  }

  lemma {:induction false} ScaledZero(i: nat)
    ensures Scaled(0, i) == 0
  {
    if i > 0 { ScaledZero(i - 1); }
  }

  /** Bitwise and, on the binary digits. */
  function And(a: nat, b: nat): (r: nat)
  {
    if a == 0 || b == 0 then 0 else (a % 2) * (b % 2) + 2 * And(a / 2, b / 2)
  }

  lemma {:induction false} AndComplement(x: nat, n: nat)
    requires x < Pow2(n)
    ensures And(x, Pow2(n) - 1 - x) == 0
  {
    if n > 0 && x > 0 && x < Pow2(n) - 1 {
      var y := Pow2(n) - 1 - x;
      assert y / 2 == Pow2(n - 1) - 1 - x / 2;
      AndComplement(x / 2, n - 1);
    }
  }

  /** Arithmetic shift right: floors for negative numbers too. */
  function Shr(x: int, k: nat): int
    decreases k
  {
    if k == 0 then x else Shr(x / 2, k - 1)
  }

  lemma {:induction false} ShrStep(x: int, k: nat)
    ensures Shr(x, k + 1) == Shr(x, k) / 2
    decreases k
  {
    if k > 0 { ShrStep(x / 2, k - 1); }
  }

  lemma {:induction false} ShrBound(x: nat, k: nat)
    requires x < Pow2(k)
    ensures Shr(x, k) == 0
  {
    if k > 0 { ShrBound(x / 2, k - 1); }
  }

  /** u & -u isolates the lowest set bit: u is an odd multiple of it. */
  lemma {:induction false} LowestBit(u: nat, n: nat) returns (s: nat, q: int)
    requires 0 < u < Pow2(n)
    ensures s < n && And(u, Pow2(n) - u) == Pow2(s)
    ensures u == q * Pow2(s) && q % 2 == 1
    decreases n
  {
    var p := Pow2(n - 1);
    assert Pow2(n) == 2 * p;
    if u % 2 == 1 {
      s, q := 0, u;
      assert (2 * p - u) / 2 == p - 1 - u / 2;
      AndComplement(u / 2, n - 1);
    } else {
      assert (2 * p - u) / 2 == p - u / 2;
      var t, r := LowestBit(u / 2, n - 1);
      s, q := t + 1, r;
      Halved(q, Pow2(t));
    }
  }

  lemma {:induction false} AndCommutes(a: nat, b: nat)
    ensures And(a, b) == And(b, a)
  {
    if a > 0 && b > 0 {
      AndCommutes(a / 2, b / 2);
      assert (a % 2) * (b % 2) == (b % 2) * (a % 2);
    }
  }

  /** Shifting right undoes a multiplication by a power of two, signs included. */
  lemma {:induction false} ShrExact(q: int, s: nat)
    ensures Shr(q * Pow2(s), s) == q
  {
    if s > 0 {
      Halved(q, Pow2(s - 1));
      ShrExact(q, s - 1);
    }
  }

  lemma Halved(a: int, p: int)
    ensures a * (2 * p) == 2 * (a * p)
  {
  }

  /** A power of two meets a mask exactly when that bit of the mask is set. */
  lemma {:induction false} AndPower(t: nat, m: nat)
    ensures And(Pow2(t), m) != 0 <==> Shr(m, t) % 2 == 1
  {
    if t > 0 {
      AndPower(t - 1, m / 2);
      assert Pow2(t) % 2 == 0 && Pow2(t) / 2 == Pow2(t - 1);
      if m == 0 { ShrBound(0, t); }
    } else {
      assert Pow2(0) == 1;
    }
  }

  // ------------------------------------------------------------- scalar bits

  /** Bit i of a scalar; position -1 reads as zero. */
  function ScalarBit(s: seq<u8>, i: int): (b: int)
    requires i < 8 * |s|
    ensures 0 <= b <= 1
  {
    if i < 0 then 0 else Shr(s[i / 8], i % 8) % 2
  }

  /** `b << k` for a single bit. */
  function Shl(b: int, k: nat): int
  {
    if b == 1 then Pow2(k) else 0
  }

  /** The n bits from position lo upward, as a number. */
  function Bits(s: seq<u8>, lo: nat, n: nat): (v: int)
    requires lo + n <= 8 * |s|
    ensures 0 <= v < Pow2(n)
  {
    if n == 0 then 0 else Bits(s, lo, n - 1) + Shl(ScalarBit(s, lo + n - 1), n - 1)
  }

  lemma {:induction false} BitsSplit(s: seq<u8>, lo: nat, m: nat, n: nat, p: int)
    requires lo + m + n <= 8 * |s| && p == Pow2(m)
    ensures Bits(s, lo, m + n) == Bits(s, lo, m) + Bits(s, lo + m, n) * p
  {
    if n > 0 {
      BitsSplit(s, lo, m, n - 1, p);
      var d := ScalarBit(s, lo + m + n - 1);
      ShlAdd(d, m, n - 1, p);
      JoinBits(Bits(s, lo, m + n), Bits(s, lo, m), Bits(s, lo + m, n - 1), Shl(d, n - 1), Shl(d, m + n - 1), p);
    }
  }

  lemma JoinBits(all: int, low: int, mid: int, top: int, shifted: int, p: int)
    requires all == low + mid * p + shifted && shifted == top * p
    ensures all == low + (mid + top) * p
  {
    Distribute(mid, top, p);
  }

  lemma ShlAdd(b: int, m: nat, n: nat, p: int)
    requires p == Pow2(m)
    ensures Shl(b, m + n) == Shl(b, n) * p
  {
    Pow2Add(m, n);
  }

  /** The low n bits of one byte, and what remains above them. */
  lemma {:induction false} ByteBits(s: seq<u8>, k: nat, n: nat)
    requires k < |s| && n <= 8
    ensures Bits(s, 8 * k, n) + Shr(s[k], n) * Pow2(n) == s[k]
  {
    if n > 0 {
      ByteBits(s, k, n - 1);
      ShrStep(s[k], n - 1);
      assert (8 * k + (n - 1)) / 8 == k && (8 * k + (n - 1)) % 8 == n - 1;
      var r, d := Shr(s[k], n), ScalarBit(s, 8 * k + n - 1);
      assert Shr(s[k], n - 1) == 2 * r + d;
      BitWeight(Shr(s[k], n - 1), r, d, Pow2(n - 1), Pow2(n));
    }
  }

  lemma BitWeight(h: int, r: int, d: int, p: int, p2: int)
    requires h == 2 * r + d && p2 == 2 * p && 0 <= d <= 1
    ensures h * p == r * p2 + if d == 1 then p else 0
  {
    Distribute(2 * r, d, p);
    Halved(r, p);
  }

  /** The bits of the scalar are its little-endian value. */
  lemma {:induction false} AllBits(s: seq<u8>, k: nat)
    requires k <= |s|
    ensures Bits(s, 8 * k, 8 * (|s| - k)) == ByteVal(s[k..])
    decreases |s| - k
  {
    if k < |s| {
      AllBits(s, k + 1);
      ByteBits(s, k, 8);
      BitsSplit(s, 8 * k, 8, 8 * (|s| - k - 1), Pow2(8));
      ShrBound(s[k], 8);
      assert s[k..][0] == s[k] && s[k..][1..] == s[k + 1..];
      SmallPowers();
    }
  }

  // ----------------------------------------------------------- the recoding

  /** What is left to emit when the next check is at c: the low bits, with bit c
      counted as a sign. */
  ghost function Signed(s: seq<u8>, c: int): int
    requires -1 <= c < 8 * |s|
  {
    if c < 0 then 0 else Bits(s, 0, c) - Shl(ScalarBit(s, c), c)
  }

  /** Two equal neighbouring bits: the check moves down and emits nothing. */
  lemma SignedSkip(s: seq<u8>, c: nat)
    requires c < 8 * |s| && ScalarBit(s, c) == ScalarBit(s, c - 1)
    ensures Signed(s, c) == Signed(s, c - 1)
  {
  }

  /** The signed digit of the w-bit window whose top bit is at c. */
  ghost function WindowDigit(s: seq<u8>, c: int, w: nat): int
    requires 1 <= w <= c + 1 && c < 8 * |s|
  {
    Bits(s, c - w + 1, w - 1) - Shl(ScalarBit(s, c), w - 1) + ScalarBit(s, c - w)
  }

  lemma SignedWindow(s: seq<u8>, c: int, w: nat)
    requires 1 <= w <= c + 1 && c < 8 * |s|
    ensures Signed(s, c) == WindowDigit(s, c, w) * Pow2(c - w + 1) + Signed(s, c - w)
  {
    SplitAt(s, c, c - w + 1, w - 1, Pow2(c - w + 1));
  }

  lemma SplitAt(s: seq<u8>, c: nat, lo: nat, n: nat, p: int)
    requires lo + n == c < 8 * |s| && p == Pow2(lo)
    ensures Signed(s, c) == (Bits(s, lo, n) - Shl(ScalarBit(s, c), n) + ScalarBit(s, lo - 1)) * p + Signed(s, lo - 1)
  {
    SignedTop(s, c, lo, n, p);
    LowPart(s, lo);
    WindowWeight(Signed(s, c), Bits(s, 0, lo), Bits(s, lo, n), Shl(ScalarBit(s, c), n),
                 ScalarBit(s, lo - 1), Shl(ScalarBit(s, lo - 1), lo), Signed(s, lo - 1), p);
  }

  lemma SignedTop(s: seq<u8>, c: nat, lo: nat, n: nat, p: int)
    requires lo + n == c < 8 * |s| && p == Pow2(lo)
    ensures Signed(s, c) == Bits(s, 0, lo) + Bits(s, lo, n) * p - Shl(ScalarBit(s, c), n) * p
  {
    BitsSplit(s, 0, lo, n, p);
    ShlAdd(ScalarBit(s, c), lo, n, p);
  }

  /** The bits below lo, with the bit at lo - 1 read as a sign and a carry. */
  lemma LowPart(s: seq<u8>, lo: nat)
    requires lo <= 8 * |s|
    ensures Bits(s, 0, lo) == Signed(s, lo - 1) + Shl(ScalarBit(s, lo - 1), lo)
  {
  }

  lemma WindowWeight(signed: int, low: int, m: int, top: int, d: int, carry: int, rest: int, p: int)
    requires signed == low + m * p - top * p && low == rest + carry
    requires 0 <= d <= 1 && carry == if d == 1 then p else 0
    ensures signed == (m - top + d) * p + rest
  {
    Distribute(m - top, d, p);
    Distribute(m, top, p);
  }

  ghost predicate IsWindowDigit(v: int, w: nat)
  {
    w > 0 && v != 0 && -Pow2(w - 1) <= v <= Pow2(w - 1)
  }

  /** A window opened by two different bits has a non-zero digit of bounded size. */
  lemma WindowDigitRange(s: seq<u8>, c: int, w: nat)
    requires 1 <= w <= c + 1 && c < 8 * |s|
    requires ScalarBit(s, c) != ScalarBit(s, c - 1)
    ensures IsWindowDigit(WindowDigit(s, c, w), w)
  {
    if w >= 2 {
      assert Bits(s, c - w + 1, w - 1) == Bits(s, c - w + 1, w - 2) + Shl(ScalarBit(s, c - 1), w - 2);
      assert Pow2(w - 1) == 2 * Pow2(w - 2);
    }
  }

  /** A 32-byte scalar below 2^253: its top three bits are clear. */
  ghost predicate IsScalar(s: seq<u8>)
  {
    |s| == 32 && s[31] < 0x20
  }

  /** Every scalar below the group order qualifies. */
  lemma ScalarBelowOrder(s: seq<u8>)
    requires |s| == 32 && ByteVal(s) < ModL.ORDER
    ensures IsScalar(s)
  {
    TopByte(s, 31);
    assert Pow256(3) == 0x100_0000;
    Pow256Word(3);
    Pow256Word(7);
    Pow256Word(11);
    Pow256Word(15);
    Pow256Word(19);
    Pow256Word(23);
    Pow256Word(27);
    assert Pow256(31) == 0x100_0000_0000_0000_0000_0000_0000_0000_0000_0000_0000_0000_0000_0000_0000_0000;
  }

  lemma Pow256Word(k: nat)
    ensures Pow256(k + 4) == 0x1_0000_0000 * Pow256(k)
  {
    assert Pow256(k + 2) == 0x1_0000 * Pow256(k);
  }

  lemma {:induction false} TopByte(s: seq<u8>, k: nat)
    requires k < |s|
    ensures s[k] * Pow256(k) <= ByteVal(s)
  {
    if k > 0 {
      TopByte(s[1..], k - 1);
      assert s[k] * Pow256(k) == 0x100 * (s[k] * Pow256(k - 1));
    }
  }

  /** The clear bits carry no value. */
  lemma ScalarBits(s: seq<u8>)
    requires IsScalar(s)
    ensures ScalarBit(s, 253) == 0
    ensures Bits(s, 0, 253) == ByteVal(s)
  {
    AllBits(s, 0);
    assert s[0..] == s;
    SmallPowers();
    ClearAbove(s[31], 5);
    assert ScalarBit(s, 253) == Shr(s[31], 5) % 2;
    assert ScalarBit(s, 254) == Shr(s[31], 6) % 2;
    assert ScalarBit(s, 255) == Shr(s[31], 7) % 2;
    assert Bits(s, 0, 254) == Bits(s, 0, 253) + Shl(ScalarBit(s, 253), 253);
    assert Bits(s, 0, 255) == Bits(s, 0, 254) + Shl(ScalarBit(s, 254), 254);
    assert Bits(s, 0, 256) == Bits(s, 0, 255) + Shl(ScalarBit(s, 255), 255);
  }

  lemma ClearAbove(x: nat, k: nat)
    requires x < Pow2(k)
    ensures Shr(x, k) == 0 && Shr(x, k + 1) == 0 && Shr(x, k + 2) == 0
  {
    ShrBound(x, k);
    ShrStep(x, k);
    ShrStep(x, k + 1);
  }

  class SlideCtx {
    var nextIndex: int  // i16: position of the next signed digit
    var nextDigit: int  // i8: its value
    var nextCheck: int  // u8: where to look for a new window; 255 once past the end
    ghost var taken: int  // the digits handed out so far, as one number
    ghost const scalar: seq<u8>

    /** Position of the next check as a signed number. */
    ghost function Check(): int
      reads this
    {
      if nextCheck == 255 then -1 else nextCheck
    }

    /** Ready to process position i: the window in flight lies above the next check. */
    ghost predicate Valid(i: int)
      reads this
    {
      && |scalar| == 32 && -1 <= i <= 253
      && (0 <= nextCheck <= i || nextCheck == 255)
      && (0 <= nextIndex <= i ==> Check() < nextIndex)
      && -1 <= nextIndex <= 253
    }

    /** What this context still owes for positions i and below. */
    ghost function Owed(i: int): int
      reads this
      requires Valid(i)
    {
      Pending(nextIndex, nextDigit, i) + Signed(scalar, Check())
    }

    /** Digits taken plus digits owed make up the scalar, and the digit in flight is
        one a table of odd multiples can serve. */
    ghost predicate Sound(width: nat, i: int)
      reads this
    {
      && Valid(i)
      && Scaled(taken, i + 1) + Owed(i) == ByteVal(scalar)
      && (nextIndex >= 0 ==> IsTableDigit(nextDigit, width))
    }

    /** No digit taken yet, and the whole scalar owed from the first check down. */
    ghost predicate Unused()
      reads this
    {
      && |scalar| == 32 && 1 <= nextCheck <= 253 && nextIndex == -1 && taken == 0
      && Signed(scalar, nextCheck) == ByteVal(scalar)
    }

    /** The ladder may start anywhere at or above the first check. */
    lemma Start(width: nat, i: int)
      requires Unused() && nextCheck <= i <= 253
      ensures Sound(width, i)
    {
      ScaledZero(i + 1);
    }

    constructor (scalar: seq<u8>)
      requires IsScalar(scalar)
      ensures Unused() && this.scalar == scalar
      ensures nextCheck == 1 || ScalarBit(scalar, nextCheck - 1) == 1
    {
      var i := 252;
      ScalarBits(scalar);
      while i > 0 && ScalarBit(scalar, i) == 0
        invariant 0 <= i <= 252
        invariant Bits(scalar, 0, i + 1) == ByteVal(scalar)
        invariant ScalarBit(scalar, i + 1) == 0
      {
        i := i - 1;
      }
      nextCheck := i + 1;
      nextIndex := -1;
      nextDigit := -1;
      this.scalar := scalar;
      taken := 0;
    }

    /** Open a window, or move the check down, when position i is due for it. */
    method CheckWindow(width: nat, i: int, scalar: seq<u8>)
      requires scalar == this.scalar && 2 <= width <= 8 && 0 <= i && Sound(width, i)
      modifies this`nextIndex, this`nextDigit, this`nextCheck
      ensures Sound(width, i) && Check() < i
    {
      if i == nextCheck {
        var w;
        nextIndex, nextDigit, w := NextWindow(scalar, i, width, nextIndex, nextDigit);
        LowerCheck(i, w);
        nextCheck := (nextCheck - w) % 256;
        assert Check() == i - w;
      }
    }

    /** An 8-bit position: one below 0 is 255. */
    static lemma LowerCheck(i: nat, w: nat)
      requires 1 <= w <= i + 1 && i <= 253
      ensures (i - w) % 256 == if i - w < 0 then 255 else i - w
    {
    }

    /** The signed digit at position i; called for descending i. */
    method Step(width: nat, i: int, scalar: seq<u8>) returns (digit: int)
      requires scalar == this.scalar && 2 <= width <= 8 && 0 <= i && Sound(width, i)
      modifies this
      ensures Sound(width, i - 1) && taken == 2 * old(taken) + digit
      ensures digit == 0 || IsTableDigit(digit, width)
    {
      CheckWindow(width, i, scalar);
      digit := if i == nextIndex then nextDigit else 0;
      Emit(nextIndex, nextDigit, i);
      ScaledSum(2 * taken, digit, i);
      taken := 2 * taken + digit;
    }

    /** Past position 0 the digits taken are the whole scalar. */
    lemma Finished(width: nat)
      requires Sound(width, -1)
      ensures taken == ByteVal(scalar)
    {
    }
  }

  /** The weighted digit in flight, until its position has passed. */
  ghost function Pending(index: int, digit: int, i: int): int
  {
    if 0 <= index <= i then Scaled(digit, index) else 0
  }

  lemma Emit(index: int, digit: int, i: nat)
    ensures Pending(index, digit, i) == Scaled(if i == index then digit else 0, i) + Pending(index, digit, i - 1)
  {
    ScaledZero(i);
  }

  /** Read the w-bit window with top bit i as a signed number. */
  method WindowValue(scalar: seq<u8>, i: int, w: nat) returns (v: int)
    requires 1 <= w <= i + 1 && i < 8 * |scalar|
    ensures v == WindowDigit(scalar, i, w)
  {
    v := -Shl(ScalarBit(scalar, i), w - 1);
    var j := 0;
    while j < w - 1
      invariant 0 <= j <= w - 1
      invariant v == -Shl(ScalarBit(scalar, i), w - 1) + Bits(scalar, i - (w - 1), j)
    {
      v := v + Shl(ScalarBit(scalar, i - (w - 1) + j), j);
      j := j + 1;
    }
    v := v + ScalarBit(scalar, i - w);
  }

  /** The window that starts at i, if its two top bits differ: the odd digit, the
      position it belongs to and the bits consumed.  Otherwise one bit is skipped. */
  method NextWindow(scalar: seq<u8>, i: int, width: nat, index0: int, digit0: int)
    returns (index: int, digit: int, w: nat)
    requires 0 <= i < 8 * |scalar| && 2 <= width <= 8
    requires index0 > i || index0 == -1
    ensures 1 <= w <= i + 1
    ensures (index == index0 && digit == digit0) || (i - w < index <= i && IsTableDigit(digit, width))
    ensures Signed(scalar, i) == Pending(index, digit, i) + Signed(scalar, i - w)
  {
    if ScalarBit(scalar, i) == ScalarBit(scalar, i - 1) {
      SignedSkip(scalar, i);
      index, digit, w := index0, digit0, 1;
    } else {
      w := if width <= i + 1 then width else i + 1;
      WindowDigitRange(scalar, i, w);
      var v := WindowValue(scalar, i, w);
      var s := OddShift(v, w, width);
      OpenWindow(scalar, i, w, s);
      index, digit := i - (w - 1) + s, Shr(v, s);
    }
  }

  /** A new window moves its digit out of what the checks still owe. */
  lemma OpenWindow(s: seq<u8>, c: int, w: nat, sh: nat)
    requires 1 <= w <= c + 1 && c < 8 * |s| && sh < w
    requires var v := WindowDigit(s, c, w); v == Shr(v, sh) * Pow2(sh)
    ensures Signed(s, c) == Pending(c - (w - 1) + sh, Shr(WindowDigit(s, c, w), sh), c) + Signed(s, c - w)
  {
    SignedWindow(s, c, w);
    Pow2Add(c - w + 1, sh);
    Rescale(WindowDigit(s, c, w), Shr(WindowDigit(s, c, w), sh), Pow2(sh), Pow2(c - w + 1), Pow2(c - (w - 1) + sh));
    ScaledMeaning(Shr(WindowDigit(s, c, w), sh), c - (w - 1) + sh);
  }

  lemma Rescale(v: int, q: int, p: int, w: int, pw: int)
    requires v == q * p && pw == w * p
    ensures v * w == q * pw
  {
    assert (q * p) * w == q * (w * p);
  }

  /** The position of the lowest set bit of v, from `v & -v` and three masks. */
  method OddShift(v: int, w: nat, width: nat) returns (s: nat)
    requires 1 <= w <= width && 2 <= width <= 8
    requires IsWindowDigit(v, w)
    ensures s < w && v == Shr(v, s) * Pow2(s)
    ensures IsTableDigit(Shr(v, s), width)
  {
    var lsb := And(v % 256, -v % 256);
    s := (if And(lsb, 0xAA) != 0 then 1 else 0)
       + (if And(lsb, 0xCC) != 0 then 2 else 0)
       + (if And(lsb, 0xF0) != 0 then 4 else 0);
    ghost var t := LowestBitOfByte(v, w);
    MaskLog(t);
    DigitRange(v, Shr(v, s), s, w, width);
  }

  lemma LowestBitOfByte(v: int, w: nat) returns (s: nat)
    requires 1 <= w <= 8 && IsWindowDigit(v, w)
    ensures s < 8 && And(v % 256, -v % 256) == Pow2(s)
    ensures v == Shr(v, s) * Pow2(s) && Shr(v, s) % 2 == 1
  {
    WindowFitsByte(v, w);
    s := OddFactor(v);
    ByteResidues(v);
    if v < 0 { AndCommutes(-v, 256 + v); }
  }

  lemma ByteResidues(v: int)
    requires v != 0 && -256 < v < 256
    ensures v > 0 ==> v % 256 == v && -v % 256 == 256 - v
    ensures v < 0 ==> v % 256 == 256 + v && -v % 256 == -v
  {
  }

  lemma OddFactor(v: int) returns (s: nat)
    requires v != 0 && -256 < v < 256
    ensures s < 8 && v == Shr(v, s) * Pow2(s) && Shr(v, s) % 2 == 1
    ensures var u := if v > 0 then v else -v; And(u, 256 - u) == Pow2(s)
  {
    var q;
    if v > 0 {
      s, q := LowestBit8(v);
      ShrExact(q, s);
    } else {
      s, q := LowestBit8(-v);
      Negated(v, q, Pow2(s));
      ShrExact(-q, s);
    }
  }

  lemma LowestBit8(u: nat) returns (s: nat, q: int)
    requires 0 < u < 256
    ensures s < 8 && And(u, 256 - u) == Pow2(s)
    ensures u == q * Pow2(s) && q % 2 == 1
  {
    SmallPowers();
    s, q := LowestBit(u, 8);
  }

  lemma WindowFitsByte(v: int, w: nat)
    requires 1 <= w <= 8 && IsWindowDigit(v, w)
    ensures -128 <= v <= 128
  {
    Pow2Mono(w - 1, 7);
    SmallPowers();
  }

  lemma Negated(v: int, q: int, p: int)
    requires -v == q * p
    ensures v == (-q) * p
  {
  }

  /** The three masks spell out the exponent of a power of two below 256. */
  lemma MaskLog(t: nat)
    requires t < 8
    ensures t == (if And(Pow2(t), 0xAA) != 0 then 1 else 0)
               + (if And(Pow2(t), 0xCC) != 0 then 2 else 0)
               + (if And(Pow2(t), 0xF0) != 0 then 4 else 0)
  {
    AndPower(t, 0xAA);
    AndPower(t, 0xCC);
    AndPower(t, 0xF0);
    MaskBits(t);
  }

  lemma MaskBits(t: nat)
    requires t < 8
    ensures t == Shr(0xAA, t) % 2 + 2 * (Shr(0xCC, t) % 2) + 4 * (Shr(0xF0, t) % 2)
  {
    SmallShifts();
    if t < 4 {
      if t == 0 {} else if t == 1 {} else if t == 2 {} else {}
    } else {
      if t == 4 {} else if t == 5 {} else if t == 6 {} else {}
    }
  }

  lemma SmallShifts()
    ensures Shr(0xAA, 0) == 170 && Shr(0xAA, 1) == 85 && Shr(0xAA, 2) == 42 && Shr(0xAA, 3) == 21
    ensures Shr(0xAA, 4) == 10 && Shr(0xAA, 5) == 5 && Shr(0xAA, 6) == 2 && Shr(0xAA, 7) == 1
    ensures Shr(0xCC, 0) == 204 && Shr(0xCC, 1) == 102 && Shr(0xCC, 2) == 51 && Shr(0xCC, 3) == 25
    ensures Shr(0xCC, 4) == 12 && Shr(0xCC, 5) == 6 && Shr(0xCC, 6) == 3 && Shr(0xCC, 7) == 1
    ensures Shr(0xF0, 0) == 240 && Shr(0xF0, 1) == 120 && Shr(0xF0, 2) == 60 && Shr(0xF0, 3) == 30
    ensures Shr(0xF0, 4) == 15 && Shr(0xF0, 5) == 7 && Shr(0xF0, 6) == 3 && Shr(0xF0, 7) == 1
  {
  }

  /** A non-zero digit of a width-bit window: odd and small enough for a table of
      2^(width-2) odd multiples. */
  ghost predicate IsTableDigit(d: int, width: nat)
  {
    width >= 2 && d % 2 == 1 && -Pow2(width - 1) < d < Pow2(width - 1)
  }

  lemma DigitRange(v: int, q: int, s: nat, w: nat, width: nat)
    requires 1 <= w <= width && width >= 2
    requires -Pow2(w - 1) <= v <= Pow2(w - 1)
    requires v == q * Pow2(s) && q % 2 == 1
    ensures s < w && IsTableDigit(q, width)
  {
    if s == 0 {
      assert q == v by { assert Pow2(0) == 1; }
      OddWindow(q, w, width);
    } else {
      OddTimesPower(v, q, s, w);
      Pow2Mono(w - 1, width - 1);
    }
  }

  /** An odd number cannot sit on the even bound of its window. */
  lemma OddWindow(v: int, w: nat, width: nat)
    requires 1 <= w <= width && width >= 2 && v % 2 == 1
    requires -Pow2(w - 1) <= v <= Pow2(w - 1)
    ensures -Pow2(width - 1) < v < Pow2(width - 1)
  {
    Pow2Mono(w - 1, width - 1);
    OddOffBound(v, Pow2(width - 1), Pow2(width - 2));
  }

  lemma OddOffBound(v: int, p: int, half: int)
    requires p == 2 * half && v % 2 == 1 && -p <= v <= p
    ensures -p < v < p
  {
  }

  lemma OddTimesPower(v: int, q: int, s: nat, w: nat)
    requires s > 0 && w > 0 && v == q * Pow2(s) && q % 2 == 1
    requires -Pow2(w - 1) <= v <= Pow2(w - 1)
    ensures s < w && -Pow2(w - 1) < q < Pow2(w - 1)
  {
    var p := Pow2(s);
    assert p == 2 * Pow2(s - 1);
    AbsProduct(v, q, p);
    assert Pow2(w) == 2 * Pow2(w - 1);
    if s >= w { Pow2Mono(w, s); }
  }

  lemma AbsProduct(v: int, q: int, p: nat)
    requires v == q * p && q % 2 == 1 && p >= 2
    ensures v >= p || -v >= p
    ensures 2 * (if q > 0 then q else -q) <= if v > 0 then v else -v
  {
    if q > 0 {
      MulMono(1, q, p);
      MulMono(2, p, q);
    } else {
      MulMono(1, -q, p);
      MulMono(2, p, -q);
    }
  }

  // ----------------------------------------------------------- whole recodings

  /** Sum of digits[k] * 2^k. */
  function Weighted(digits: seq<int>): int
  {
    if |digits| == 0 then 0 else digits[0] + 2 * Weighted(digits[1..])
  }

  /** All digits of a scalar, taken from position start down to 0. */
  method Recode(scalar: seq<u8>, width: nat, start: nat) returns (digits: seq<int>)
    requires IsScalar(scalar) && 2 <= width <= 8
    requires forall i :: start <= i < 256 ==> ScalarBit(scalar, i) == 0
    requires 1 <= start <= 253
    ensures |digits| == start + 1
    ensures Weighted(digits) == ByteVal(scalar)
    ensures forall k :: 0 <= k <= start ==> digits[k] == 0 || IsTableDigit(digits[k], width)
  {
    var ctx := new SlideCtx(scalar);
    digits := [];
    var i := start;
    ctx.Start(width, i);
    while i >= 0
      invariant -1 <= i <= start && fresh(ctx) && ctx.Sound(width, i)
      invariant |digits| == start - i && ctx.taken == Weighted(digits)
      invariant forall k :: 0 <= k < |digits| ==> digits[k] == 0 || IsTableDigit(digits[k], width)
    {
      var d := ctx.Step(width, i, scalar);
      assert ([d] + digits)[1..] == digits;
      digits := [d] + digits;
      i := i - 1;
    }
    ctx.Finished(width);
  }

  // ------------------------------------------------------------------- ladder

  /** Table of the odd multiples of a point: lut[k] = [2k + 1]p. */
  ghost predicate OddMultiples<T>(g: Group<T>, lut: seq<T>, p: T)
  {
    forall k :: 0 <= k < |lut| ==> lut[k] == Times(g, 2 * k + 1, p)
  }

  /** The table the signature check builds for -A from one doubling. */
  method BuildLut<T(!new)>(g: Group<T>, minusA: T, size: nat) returns (lut: seq<T>)
    requires Laws(g) && size > 0
    ensures |lut| == size && OddMultiples(g, lut, minusA)
  {
    var minusA2 := g.double(minusA);
    lut := [minusA];
    FirstMultiples(g, minusA);
    var i := 1;
    while i < size
      invariant 1 <= i <= size && |lut| == i && OddMultiples(g, lut, minusA)
    {
      NextMultiple(g, minusA, i);
      lut := lut + [g.add(minusA2, lut[i - 1])];
      i := i + 1;
    }
  }

  lemma FirstMultiples<T(!new)>(g: Group<T>, p: T)
    requires Laws(g)
    ensures Times(g, 2 * 0 + 1, p) == p && Times(g, 2, p) == g.double(p)
  {
    Once(g, p);
    Succ(g, 1, p);
    assert Steady(g, p);
  }

  lemma NextMultiple<T(!new)>(g: Group<T>, p: T, i: nat)
    requires Laws(g) && i > 0
    ensures g.add(g.double(p), Times(g, 2 * (i - 1) + 1, p)) == Times(g, 2 * i + 1, p)
  {
    FirstMultiples(g, p);
    Sum(g, 2, 2 * (i - 1) + 1, p);
  }

  /** Add the multiple of a point that a digit stands for, through its table. */
  function AddDigit<T>(g: Group<T>, sum: T, digit: int, lut: seq<T>, width: nat): (r: T)
    requires digit == 0 || IsTableDigit(digit, width)
    requires 2 <= width && |lut| == Pow2(width - 2)
  {
    assert Pow2(width - 1) == 2 * Pow2(width - 2);
    if digit > 0 then g.add(sum, lut[digit / 2])
    else if digit < 0 then g.sub(sum, lut[-digit / 2])
    else sum
  }

  lemma AddDigitMeaning<T(!new)>(g: Group<T>, sum: T, digit: int, lut: seq<T>, width: nat, p: T)
    requires digit == 0 || IsTableDigit(digit, width)
    requires Laws(g) && 2 <= width && |lut| == Pow2(width - 2) && OddMultiples(g, lut, p)
    ensures AddDigit(g, sum, digit, lut, width) == g.add(sum, Times(g, digit, p))
  {
    assert Pow2(width - 1) == 2 * Pow2(width - 2);
    if digit > 0 {
      assert 2 * (digit / 2) + 1 == digit;
    } else if digit < 0 {
      assert 2 * (-digit / 2) + 1 == -digit;
      SubTimes(g, sum, -digit, p);
    } else {
      assert Steady(g, sum);
    }
  }

  const P_W_WIDTH: nat := 3
  const B_W_WIDTH: nat := 5

  /** The ladder's two tables, for windows of these widths. */
  ghost predicate Tables<T(!new)>(g: Group<T>, pw: nat, lutA: seq<T>, bw: nat, bWindow: seq<T>, span: Span<T>)
  {
    && Laws(g) && Spans(g, span) && 2 <= pw <= 8 && 2 <= bw <= 8
    && |lutA| == Pow2(pw - 2) && OddMultiples(g, lutA, span.p)
    && |bWindow| == Pow2(bw - 2) && OddMultiples(g, bWindow, span.q)
  }

  /** The sum after one turn of the ladder, given the two digits. */
  method DoubleAndAdd<T(!new)>(g: Group<T>, sum: T, pw: nat, hDigit: int, lutA: seq<T>, bw: nat, sDigit: int,
                               bWindow: seq<T>, ghost span: Span<T>, ghost a: int, ghost b: int) returns (r: T)
    requires hDigit == 0 || IsTableDigit(hDigit, pw)
    requires sDigit == 0 || IsTableDigit(sDigit, bw)
    requires Tables(g, pw, lutA, bw, bWindow, span) && sum == span.at(a, b)
    ensures r == span.at(2 * a + hDigit, 2 * b + sDigit)
  {
    r := g.double(sum);
    CombinedDouble(g, a, span.p, b, span.q);
    AddDigitMeaning(g, r, hDigit, lutA, pw, span.p);
    r := AddDigit(g, r, hDigit, lutA, pw);
    CombinedFirst(g, 2 * a, span.p, 2 * b, span.q, hDigit);
    AddDigitMeaning(g, r, sDigit, bWindow, bw, span.q);
    r := AddDigit(g, r, sDigit, bWindow, bw);
    CombinedSecond(g, 2 * a + hDigit, span.p, 2 * b, span.q, sDigit);
  }

  /** Both recodings are ready for position i. */
  ghost predicate InStep(hSlide: SlideCtx, pw: nat, sSlide: SlideCtx, bw: nat, i: int)
    reads hSlide, sSlide
  {
    hSlide != sSlide && hSlide.Sound(pw, i) && sSlide.Sound(bw, i)
  }

  lemma BothFinished(hSlide: SlideCtx, pw: nat, sSlide: SlideCtx, bw: nat)
    requires InStep(hSlide, pw, sSlide, bw, -1)
    ensures hSlide.taken == ByteVal(hSlide.scalar) && sSlide.taken == ByteVal(sSlide.scalar)
  {
    hSlide.Finished(pw);
    sSlide.Finished(bw);
  }

  method Digits(hSlide: SlideCtx, pw: nat, h: seq<u8>, sSlide: SlideCtx, bw: nat, s: seq<u8>, i: int)
    returns (hDigit: int, sDigit: int)
    requires i >= 0 && 2 <= pw <= 8 && 2 <= bw <= 8
    requires InStep(hSlide, pw, sSlide, bw, i) && hSlide.scalar == h && sSlide.scalar == s
    modifies hSlide, sSlide
    ensures InStep(hSlide, pw, sSlide, bw, i - 1)
    ensures hSlide.taken == 2 * old(hSlide.taken) + hDigit && (hDigit == 0 || IsTableDigit(hDigit, pw))
    ensures sSlide.taken == 2 * old(sSlide.taken) + sDigit && (sDigit == 0 || IsTableDigit(sDigit, bw))
  {
    hDigit := hSlide.Step(pw, i, h);
    sDigit := sSlide.Step(bw, i, s);
  }

  method Turn<T(!new)>(g: Group<T>, hSlide: SlideCtx, pw: nat, h: seq<u8>, sSlide: SlideCtx, bw: nat, s: seq<u8>,
                       i: int, sum: T, lutA: seq<T>, bWindow: seq<T>, ghost span: Span<T>) returns (r: T)
    requires i >= 0 && InStep(hSlide, pw, sSlide, bw, i) && hSlide.scalar == h && sSlide.scalar == s
    requires Tables(g, pw, lutA, bw, bWindow, span) && sum == span.at(hSlide.taken, sSlide.taken)
    modifies hSlide, sSlide
    ensures InStep(hSlide, pw, sSlide, bw, i - 1) && r == span.at(hSlide.taken, sSlide.taken)
  {
    ghost var a, b := hSlide.taken, sSlide.taken;
    var hDigit, sDigit := Digits(hSlide, pw, h, sSlide, bw, s, i);
    r := DoubleAndAdd(g, sum, pw, hDigit, lutA, bw, sDigit, bWindow, span, a, b);
  }

  /** The loop of the ladder. */
  method Descend<T(!new)>(g: Group<T>, hSlide: SlideCtx, pw: nat, h: seq<u8>, sSlide: SlideCtx, bw: nat, s: seq<u8>,
                          start: int, lutA: seq<T>, bWindow: seq<T>, ghost span: Span<T>) returns (sum: T)
    requires InStep(hSlide, pw, sSlide, bw, start) && hSlide.scalar == h && sSlide.scalar == s
    requires Tables(g, pw, lutA, bw, bWindow, span) && g.zero == span.at(hSlide.taken, sSlide.taken)
    modifies hSlide, sSlide
    ensures sum == span.at(ByteVal(h), ByteVal(s))
  {
    sum := g.zero;
    var i := start;
    while i >= 0
      invariant -1 <= i && InStep(hSlide, pw, sSlide, bw, i)
      invariant sum == span.at(hSlide.taken, sSlide.taken)
    {
      sum := Turn(g, hSlide, pw, h, sSlide, bw, s, i, sum, lutA, bWindow, span);
      i := i - 1;
    }
    BothFinished(hSlide, pw, sSlide, bw);
  }

  /** Merged double-and-add: the result is [s]B - [h]A, whatever commutative group the
      points form. */
  method Ladder<T(!new)>(g: Group<T>, h: seq<u8>, s: seq<u8>, minusA: T, bWindow: seq<T>, ghost point: T, ghost base: T)
    returns (sum: T)
    requires Laws(g) && IsScalar(h) && IsScalar(s) && minusA == g.sub(g.zero, point)
    requires |bWindow| == 8 && OddMultiples(g, bWindow, base)
    ensures sum == g.sub(Times(g, ByteVal(s), base), Times(g, ByteVal(h), point))
  {
    SmallPowers();
    var lutA := BuildLut(g, minusA, 2);
    var hSlide := new SlideCtx(h);
    var sSlide := new SlideCtx(s);
    var i := if hSlide.nextCheck >= sSlide.nextCheck then hSlide.nextCheck else sSlide.nextCheck;
    hSlide.Start(P_W_WIDTH, i);
    sSlide.Start(B_W_WIDTH, i);
    ghost var span := Span(minusA, base, (x: int, y: int) => Combined(g, x, minusA, y, base));
    CombinedNone(g, minusA, base);
    sum := Descend(g, hSlide, P_W_WIDTH, h, sSlide, B_W_WIDTH, s, i, lutA, bWindow, span);
    CombinedOpposite(g, ByteVal(h), point, ByteVal(s), base);
  }
}
