/** The signature check (crypto_eddsa_check_equation in lib/monocypher/monocypher.c) over
    any commutative group: when it accepts, and that genuine signatures pass it. */
module Eddsa {
  import opened Basics
  import opened Bytes
  import opened Groups
  import opened Limbs
  import ModL
  import Slide

  /** Reading an encoded point. */
  type Decoder<!T> = seq<u8> -> Option<T>

  /** The equation of a signature (R, s) under the key A: [c]([s]B - [h]A - R) = 0; the
      curve's cofactor c = 8 removes what is not in the group of order L. */
  ghost predicate Equation<T>(g: Group<T>, c: nat, base: T, key: T, r: T, s: nat, h: nat)
  {
    Times(g, c, g.sub(g.sub(Times(g, s, base), Times(g, h, key)), r)) == g.zero
  }

  /** Both points decode, s is reduced, and the equation holds. */
  ghost predicate Accepts<T>(g: Group<T>, decode: Decoder<T>, base: T, signature: seq<u8>, publicKey: seq<u8>, h: nat)
    requires |signature| == 64
  {
    && decode(publicKey).Some? && decode(signature[..32]).Some? && ByteVal(signature[32..]) < ModL.ORDER
    && Equation(g, 8, base, decode(publicKey).value, decode(signature[..32]).value, ByteVal(signature[32..]), h)
  }

  /** Decode a point and negate it. */
  function FromBytesNeg<T>(g: Group<T>, decode: Decoder<T>, b: seq<u8>): Option<T>
  {
    match decode(b)
    case Some(p) => Some(g.sub(g.zero, p))
    case None => None
  }

  method IsReduced(s: seq<u8>) returns (ok: bool)
    requires |s| == 32
    ensures ok <==> ByteVal(s) < ModL.ORDER
  {
    var bytes := new u8[32](i requires 0 <= i < 32 => s[i]);
    assert bytes[..] == s;
    var s32 := new u32[8];
    ModL.Load32LeBuf(s32, bytes, 8);
    var above := ModL.IsAboveL(s32);
    ok := above == 0;
  }

  lemma Eightfold<T(!new)>(g: Group<T>, sum: T, r: T, minusR: T)
    requires Laws(g) && minusR == g.sub(g.zero, r)
    ensures g.double(g.double(g.double(g.add(sum, minusR)))) == Times(g, 8, g.sub(sum, r))
  {
    var d := g.sub(sum, r);
    SubIsAdd(g, sum, r);
    Once(g, d);
    DoubleTimes(g, 1, d);
    DoubleTimes(g, 2, d);
    DoubleTimes(g, 4, d);
  }

  lemma DoubleTimes<T(!new)>(g: Group<T>, n: int, p: T)
    requires Laws(g)
    ensures g.double(Times(g, n, p)) == Times(g, 2 * n, p)
  {
    assert Steady(g, Times(g, n, p));
    Sum(g, n, n, p);
  }

  /** The check accepts exactly the signatures that solve the equation. */
  method CheckEquation<T(!new, ==)>(g: Group<T>, decode: Decoder<T>, signature: seq<u8>, publicKey: seq<u8>, h: seq<u8>,
                                    bWindow: seq<T>, ghost base: T) returns (ok: bool)
    requires Laws(g) && |signature| == 64 && |publicKey| == 32
    requires |h| == 32 && ByteVal(h) < ModL.ORDER
    requires |bWindow| == 8 && Slide.OddMultiples(g, bWindow, base)
    ensures ok <==> Accepts(g, decode, base, signature, publicKey, ByteVal(h))
  {
    var s := signature[32..];
    var minusA, minusR := FromBytesNeg(g, decode, publicKey), FromBytesNeg(g, decode, signature[..32]);
    var reduced := IsReduced(s);
    if minusA.None? || minusR.None? || !reduced { return false; }
    Slide.ScalarBelowOrder(s);
    Slide.ScalarBelowOrder(h);
    var sum := Slide.Ladder(g, h, s, minusA.value, bWindow, decode(publicKey).value, base);
    Eightfold(g, sum, decode(signature[..32]).value, minusR.value);
    sum := g.double(g.double(g.double(g.add(sum, minusR.value))));
    ok := sum == g.zero;
  }

  // ------------------------------------------------------------- genuine signatures

  /** Multiples of a point whose order divides L depend on the factor modulo L only. */
  lemma TimesMod<T(!new)>(g: Group<T>, x: nat, p: T, order: nat)
    requires Laws(g) && order > 0 && Times(g, order, p) == g.zero
    ensures Times(g, x % order, p) == Times(g, x, p)
  {
    var q, r := x / order, x % order;
    Sum(g, r, q * order, p);
    Product(g, q, order, p);
    TimesZero(g, q);
    assert Steady(g, Times(g, r, p));
    assert x == r + q * order;
  }

  /** What the signer computes, s = (h * a + r) mod L for the key [a]B and the nonce
      point [r]B, solves the equation. */
  lemma SignerSolves<T(!new)>(g: Group<T>, c: nat, base: T, a: nat, r: nat, h: nat, ha: nat, s: nat, order: nat)
    requires Laws(g) && order > 0 && Times(g, order, base) == g.zero && ha == h * a && s == (ha + r) % order
    ensures Equation(g, c, base, Times(g, a, base), Times(g, r, base), s, h)
  {
    TimesMod(g, ha + r, base, order);
    Product(g, h, a, base);
    SumCancels(g, ha, r, base);
    TimesZero(g, c);
  }

  lemma SumCancels<T(!new)>(g: Group<T>, x: int, y: int, p: T)
    requires Laws(g)
    ensures g.sub(g.sub(Times(g, x + y, p), Times(g, x, p)), Times(g, y, p)) == g.zero
  {
    Sum(g, x, y, p);
    CancelsOut(g, Times(g, x, p), Times(g, y, p));
  }

  /** So a signature put together as the signer does is accepted. */
  lemma GenuineAccepted<T(!new)>(g: Group<T>, decode: Decoder<T>, base: T, signature: seq<u8>, publicKey: seq<u8>,
                                 a: nat, r: nat, h: nat)
    requires Laws(g) && Times(g, ModL.ORDER, base) == g.zero && |signature| == 64
    requires decode(publicKey) == Some(Times(g, a, base)) && decode(signature[..32]) == Some(Times(g, r, base))
    requires ByteVal(signature[32..]) == (h * a + r) % ModL.ORDER
    ensures Accepts(g, decode, base, signature, publicKey, h)
  {
    SignerSolves(g, 8, base, a, r, h, h * a, ByteVal(signature[32..]), ModL.ORDER);
  }

  lemma CancelsOut<T(!new)>(g: Group<T>, x: T, y: T)
    requires Laws(g)
    ensures g.sub(g.sub(g.add(x, y), x), y) == g.zero
  {
    assert Commutes(g, x, y) && Undoes(g, g.add(x, y), x);
    Cancel(g, g.sub(g.add(x, y), x), y, x);
    assert Undoes(g, y, y) && Commutes(g, g.zero, y) && Steady(g, y);
    Cancel(g, g.sub(y, y), g.zero, y);
  }

  // ------------------------------------------------------------------ malleability

  /** L is the exact order of p: only its multiples lead back to zero. */
  ghost predicate ExactOrder<T>(g: Group<T>, p: T, order: nat)
  {
    order > 0 && forall n: int :: Times(g, n, p) == g.zero ==> n % order == 0
  }

  /** The equation leaves [c * s]B determined by everything else. */
  lemma EquationFixes<T(!new)>(g: Group<T>, c: nat, base: T, key: T, r: T, s: nat, h: nat) returns (w: T)
    requires Laws(g) && Equation(g, c, base, key, r, s, h)
    ensures w == Times(g, c, g.add(g.sub(g.zero, Times(g, h, key)), g.sub(g.zero, r)))
    ensures g.add(Times(g, c * s, base), w) == g.zero
  {
    var x, y, z := Times(g, s, base), g.sub(g.zero, Times(g, h, key)), g.sub(g.zero, r);
    SubIsAdd(g, x, Times(g, h, key));
    SubIsAdd(g, g.add(x, y), r);
    assert Associates(g, x, y, z);
    TimesPlus(g, c, x, g.add(y, z));
    Product(g, c, s, base);
    w := Times(g, c, g.add(y, z));
  }

  lemma SameMultiple<T(!new)>(g: Group<T>, a: int, b: int, p: T, w: T)
    requires Laws(g) && g.add(Times(g, a, p), w) == g.zero && g.add(Times(g, b, p), w) == g.zero
    ensures Times(g, a - b, p) == g.zero
  {
    Cancel(g, Times(g, a, p), Times(g, b, p), w);
    Sum(g, a - b, b, p);
    assert Steady(g, Times(g, b, p)) && Commutes(g, g.zero, Times(g, b, p));
    Cancel(g, Times(g, a - b, p), g.zero, Times(g, b, p));
  }

  /** Eight times a difference below an odd modulus is a multiple of it only at zero. */
  lemma OddModulus(a: int, b: int, order: nat, d: int)
    requires 0 <= a < order && 0 <= b < order && order % 2 == 1 && d == 8 * a - 8 * b && d % order == 0
    ensures a == b
  {
    var k := d / order;
    assert d == k * order;
    KBounds(d, k, order);
    assert k == -7 || k == -6 || k == -5 || k == -4 || k == -3 || k == -2 || k == -1 || k == 0
        || k == 1 || k == 2 || k == 3 || k == 4 || k == 5 || k == 6 || k == 7;
  }

  lemma KBounds(d: int, k: int, order: nat)
    requires d == k * order && -8 * order < d < 8 * order
    ensures -8 < k < 8
  {
    if k >= 8 { MulMono(8, k, order); }
    if k <= -8 { MulMono(k, -8, order); }
  }

  /** The bound on s makes signatures unique: with the nonce point, the key and the
      hash given, only one string is accepted. */
  lemma AcceptedUnique<T(!new)>(g: Group<T>, decode: Decoder<T>, base: T, x: seq<u8>, y: seq<u8>, publicKey: seq<u8>,
                                h: nat)
    requires Laws(g) && ExactOrder(g, base, ModL.ORDER) && |x| == |y| == 64 && x[..32] == y[..32]
    requires Accepts(g, decode, base, x, publicKey, h) && Accepts(g, decode, base, y, publicKey, h)
    ensures x == y
  {
    UniqueScalar(g, 8, base, decode(publicKey).value, decode(x[..32]).value, ByteVal(x[32..]), ByteVal(y[32..]), h);
    var d := 8 * ByteVal(x[32..]) - 8 * ByteVal(y[32..]);
    OddModulus(ByteVal(x[32..]), ByteVal(y[32..]), ModL.ORDER, d);
    ByteValLe(x[32..]);
    ByteValLe(y[32..]);
    assert x == x[..32] + x[32..] && y == y[..32] + y[32..];
  }

  lemma UniqueScalar<T(!new)>(g: Group<T>, c: nat, base: T, key: T, r: T, s: nat, s': nat, h: nat)
    requires Laws(g) && Equation(g, c, base, key, r, s, h) && Equation(g, c, base, key, r, s', h)
    ensures Times(g, c * s - c * s', base) == g.zero
  {
    var w := EquationFixes(g, c, base, key, r, s, h);
    var w' := EquationFixes(g, c, base, key, r, s', h);
    SameMultiple(g, c * s, c * s', base, w);
  }
}
