/** Bytes and little-endian byte strings. */
module Bytes {

  type u8 = x: int | 0 <= x < 0x100
  type u16 = x: int | 0 <= x < 0x1_0000
  type u32 = x: int | 0 <= x < 0x1_0000_0000
  type u64 = x: int | 0 <= x < 0x1_0000_0000_0000_0000

  /** The number a little-endian byte string stands for. */
  function ByteVal(b: seq<u8>): nat
  {
    if |b| == 0 then 0 else b[0] + 0x100 * ByteVal(b[1..])
  }

  /** The low n bytes of x, least significant first. */
  function LeBytes(x: nat, n: nat): (b: seq<u8>)
    ensures |b| == n
  {
    if n == 0 then [] else [x % 0x100] + LeBytes(x / 0x100, n - 1)
  }

  function Pow256(n: nat): (p: int)
    ensures p > 0
  {
    if n == 0 then 1 else 0x100 * Pow256(n - 1)
  }

  /** Byte i is the digit of that weight. */
  lemma {:induction false} LeBytesAt(x: nat, n: nat, i: nat)
    requires i < n
    ensures LeBytes(x, n)[i] == x / Pow256(i) % 0x100
  {
    if i > 0 {
      LeBytesAt(x / 0x100, n - 1, i - 1);
      DivTwice(x, Pow256(i - 1));
    }
  }

  lemma DivTwice(x: nat, p: int)
    requires p > 0
    ensures x / 0x100 / p == x / (0x100 * p)
  {
    var q := x / (0x100 * p);
    var r := x - q * (0x100 * p);
    assert x == 0x100 * (q * p) + r && 0 <= r < 0x100 * p;
    var y := r / 0x100;
    assert x / 0x100 == q * p + y && 0 <= y < p;
    Quotient(x / 0x100, p, q, y);
  }

  lemma Quotient(x: int, p: int, q: int, r: int)
    requires p > 0 && x == q * p + r && 0 <= r < p
    ensures x / p == q
  {
    var k, rest := x / p, x % p;
    assert x == k * p + rest;
    if k > q { Scale(q + 1, k, p); }
    if k < q { Scale(k + 1, q, p); }
  }

  lemma Scale(a: int, b: int, p: int)
    requires a <= b && p > 0
    ensures a * p <= b * p
  {
  }

  /** n bytes hold any number below 256^n. */
  lemma {:induction false} LeBytesVal(x: nat, n: nat)
    requires x < Pow256(n)
    ensures ByteVal(LeBytes(x, n)) == x
  {
    if n > 0 {
      LeBytesVal(x / 0x100, n - 1);
      assert LeBytes(x, n)[1..] == LeBytes(x / 0x100, n - 1);
    }
  }

  lemma {:induction false} ByteValBound(b: seq<u8>)
    ensures ByteVal(b) < Pow256(|b|)
  {
    if |b| > 0 { ByteValBound(b[1..]); }
  }

  lemma LowByte(x: int, low: u8, high: int)
    requires x == low + 0x100 * high
    ensures x % 0x100 == low && x / 0x100 == high
  {
  }

  /** Reading a number and writing it back restores the bytes. */
  lemma {:induction false} ByteValLe(b: seq<u8>)
    ensures LeBytes(ByteVal(b), |b|) == b
  {
    if |b| > 0 {
      ByteValLe(b[1..]);
      LowByte(ByteVal(b), b[0], ByteVal(b[1..]));
    }
  }

  lemma Pow256Small()
    ensures Pow256(2) == 0x1_0000 && Pow256(4) == 0x1_0000_0000 && Pow256(8) == 0x1_0000_0000_0000_0000
    ensures Pow256(16) == 0x1_0000_0000_0000_0000_0000_0000_0000_0000
  {
    assert Pow256(4) == 0x1_0000_0000;
    assert Pow256(8) == 0x1_0000_0000_0000_0000;
    assert Pow256(12) == 0x1_0000_0000_0000_0000_0000_0000;
  }

  /** Little-endian 16- and 32-bit reads. */
  function LeU16(b: seq<u8>): (v: u16)
    requires |b| == 2
  {
    ByteValBound(b);
    Pow256Small();
    ByteVal(b)
  }

  function LeU32(b: seq<u8>): (v: u32)
    requires |b| == 4
  {
    ByteValBound(b);
    Pow256Small();
    ByteVal(b)
  }

  lemma TwoBytes(b: seq<u8>)
    requires |b| == 2
    ensures LeU16(b) == b[0] as int + 0x100 * b[1] as int
  {
    assert ByteVal(b) == b[0] as int + 0x100 * ByteVal(b[1..]);
    assert b[1..] == [b[1]] && [b[1]][1..] == [];
  }

  lemma FourBytes(b: seq<u8>)
    requires |b| == 4
    ensures LeU32(b) == b[0] as int + 0x100 * b[1] as int + 0x1_0000 * b[2] as int + 0x100_0000 * b[3] as int
  {
    assert b[1..][1..] == b[2..] && b[2..][1..] == b[3..] && b[3..][1..] == [];
    assert ByteVal(b) == b[0] as int + 0x100 * ByteVal(b[1..]);
    assert ByteVal(b[1..]) == b[1] as int + 0x100 * ByteVal(b[2..]);
    assert ByteVal(b[2..]) == b[2] as int + 0x100 * ByteVal(b[3..]);
    assert ByteVal(b[3..]) == b[3] as int;
  }

  /** Copy a byte string into a buffer at an offset. */
  method WriteAt(buf: array<u8>, off: nat, bytes: seq<u8>)
    requires off + |bytes| <= buf.Length
    modifies buf
    ensures buf[..off + |bytes|] == old(buf[..off]) + bytes
    ensures buf[off + |bytes|..] == old(buf[off + |bytes|..])
    ensures forall i :: off + |bytes| <= i < buf.Length ==> buf[i] == old(buf[i])
  {
    var i := 0;
    while i < |bytes|
      invariant 0 <= i <= |bytes|
      invariant buf[..off + i] == old(buf[..off]) + bytes[..i]
      invariant buf[off + i..] == old(buf[off + i..])
    {
      buf[off + i] := bytes[i];
      i := i + 1;
    }
  }
}
