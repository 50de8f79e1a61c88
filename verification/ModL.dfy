/** Arithmetic modulo the Ed25519 group order L (lib/monocypher/monocypher.c):
    Barrett reduction of 512-bit numbers and the scalar multiply-add built on it.
    Every carry is a `u64`, so verification also shows that none overflows. */
module ModL {
  import opened Bytes
  import opened Limbs

  // 2^252 + 27742317777372353535851937790883648493, section 5.1 of RFC 8032
  const ORDER: int := 0x1000000000000000000000000000000014def9dea2f79cd65812631a5cf5d3ed
  // floor(2^512 / ORDER)
  const RECIPROCAL: int := 0xfffffffffffffffffffffffffffffffeb2106215d086329a7ed9ce5a30a2c131b

  const L: seq<u32> := [
    0x5cf5d3ed, 0x5812631a, 0xa2f79cd6, 0x14def9de,
    0x00000000, 0x00000000, 0x00000000, 0x10000000]

  const R: seq<u32> := [
    0x0a2c131b, 0xed9ce5a3, 0x086329a7, 0x2106215d,
    0xffffffeb, 0xffffffff, 0xffffffff, 0xffffffff, 0xf]

  // ---------------------------------------------------------------- constants

  lemma ValHead(s: seq<u32>)
    requires |s| > 0
    ensures Val(s) == s[0] + BASE * Val(s[1..])
  {
    ValSplit(s, 1);
    assert s[..1] == [s[0]];
    assert Val([s[0]]) == s[0] by {
      assert [s[0]][..0] == [];
    }
    assert Pow(1) == BASE;
  }

  lemma ValFour(s: seq<u32>)
    requires |s| >= 4
    ensures Val(s) == s[0] + s[1] * 0x1_0000_0000 + s[2] * 0x1_0000_0000_0000_0000
                      + s[3] * 0x1_0000_0000_0000_0000_0000_0000
                      + 0x1_0000_0000_0000_0000_0000_0000_0000_0000 * Val(s[4..])
  {
    ValHead(s);
    ValHead(s[1..]);
    ValHead(s[2..]);
    ValHead(s[3..]);
    assert s[1..][1..] == s[2..] && s[2..][1..] == s[3..] && s[3..][1..] == s[4..];
  }

  lemma Powers()
    ensures Pow(8) == 0x1_0000_0000_0000_0000_0000_0000_0000_0000_0000_0000_0000_0000_0000_0000_0000_0000
    ensures Pow(16) == Pow(8) * Pow(8)
  {
    assert Pow(4) == 0x1_0000_0000_0000_0000_0000_0000_0000_0000 by {
      assert Pow(2) == 0x1_0000_0000_0000_0000;
      PowAdd(2, 2);
    }
    PowAdd(4, 4);
    PowAdd(8, 8);
  }

  /** The limb tables hold the group order, 2^252 + 27742317777372353535851937790883648493,
      and its rounded-down reciprocal. */
  lemma TableValues()
    ensures Val(L) == ORDER == Pow(7) * 0x1000_0000 + 27742317777372353535851937790883648493
    ensures Val(R) == RECIPROCAL
    ensures RECIPROCAL * ORDER <= Pow(16) < (RECIPROCAL + 1) * ORDER
    ensures 2 * ORDER < Pow(8)
  {
    ValFour(L);
    ValFour(L[4..]);
    assert L[4..][4..] == [];
    ValFour(R);
    ValFour(R[4..]);
    ValHead(R[8..]);
    assert R[4..][4..] == R[8..] && R[8..][1..] == [];
    Powers();
  }

  // ------------------------------------------------------------ multiplication

  /** One finished row: the returned carry lands on a limb that was still zero. */
  lemma RowDone(p0: seq<u32>, p: seq<u32>, i: nat, a: seq<u32>, b: seq<u32>, carry: u32, start: nat)
    requires i < |a| && i + |b| < |p| && |p0| == |p|
    requires p[i + |b|] == 0
    requires RowInv(p0, p, i, a[i], b, |b|, carry)
    requires Val(p0) == start + Val(a[..i]) * Val(b)
    ensures Val(p[i + |b| := carry]) == start + Val(a[..i + 1]) * Val(b)
  {
    ValUpdate(p, i + |b|, carry);
    assert b[..|b|] == b;
    ValSnoc(a, i);
    Distribute(Val(a[..i]), a[i] * Pow(i), Val(b));
  }

  /** `p += a * b`; the upper half of p must start out zero. */
  method Multiply(p: array<u32>, a: array<u32>, b: array<u32>)
    requires p.Length == 16 && a.Length == 8 && b.Length == 8 && p != a && p != b
    requires forall k :: 8 <= k < 16 ==> p[k] == 0
    modifies p
    ensures Val(p[..]) == Val(old(p[..])) + Val(a[..]) * Val(b[..])
  {
    var i := 0;
    while i < 8
      invariant 0 <= i <= 8
      invariant a[..] == old(a[..]) && b[..] == old(b[..])
      invariant Val(p[..]) == Val(old(p[..])) + Val(a[..][..i]) * Val(b[..])
      invariant forall k :: i + 8 <= k < 16 ==> p[k] == 0
    {
      ghost var p0 := p[..];
      var carry := MulRow(p, i, a[i], b[..]);
      ghost var p1 := p[..];
      RowDone(p0, p1, i, a[..], b[..], carry, Val(old(p[..])));
      p[i + 8] := carry;
      assert p[..] == p1[i + 8 := p[i + 8]];
      i := i + 1;
    }
    assert a[..][..8] == a[..];
  }

  // -------------------------------------------------- addition of a complement

  /** Limb-wise `~y`. */
  function Complement(y: seq<u32>): (z: seq<u32>)
    ensures |z| == |y|
  {
    seq(|y|, i requires 0 <= i < |y| => BASE - 1 - y[i])
  }

  lemma {:induction false} ComplementVal(y: seq<u32>)
    ensures Val(Complement(y)) + Val(y) == Pow(|y|) - 1
  {
    if |y| == 0 {
    } else {
      var n := |y| - 1;
      ComplementVal(y[..n]);
      assert Complement(y)[..n] == Complement(y[..n]);
      Distribute(BASE - 1 - y[n], y[n], Pow(n));
      assert (BASE - 1) * Pow(n) == Pow(n + 1) - Pow(n);
    }
  }

  /** Sum of x and z so far, with the pending carry at its weight. */
  ghost predicate SumInv(x: seq<u32>, z: seq<u32>, out: seq<u32>, c0: nat, i: nat, carry: nat)
    requires i <= |x| && i <= |z| && i <= |out|
  {
    Val(out[..i]) + carry * Pow(i) == c0 + Val(x[..i]) + Val(z[..i])
  }

  lemma SumStep(x: seq<u32>, z: seq<u32>, out: seq<u32>, c0: nat, i: nat, carry: nat)
    requires i < |x| && i < |z| && i < |out|
    requires SumInv(x, z, out, c0, i, carry)
    ensures var t := carry + x[i] + z[i];
            SumInv(x, z, out[i := t % BASE], c0, i + 1, t / BASE)
  {
    var t := carry + x[i] + z[i];
    var out' := out[i := t % BASE];
    assert out'[..i] == out[..i];
    ValSnoc(out', i);
    ValSnoc(x, i);
    ValSnoc(z, i);
    ScaleCarry(t, Pow(i));
    Distribute(carry + x[i], z[i], Pow(i));
    Distribute(carry, x[i], Pow(i));
  }

  lemma ScaleCarry(t: nat, p: nat)
    ensures (t % BASE) * p + (t / BASE) * (BASE * p) == t * p
  {
    Distribute(t % BASE, (t / BASE) * BASE, p);
    assert (t / BASE) * (BASE * p) == ((t / BASE) * BASE) * p;
  }

  /** A chain whose result limbs are not kept still has a determined last carry. */
  lemma CarryOut(x: seq<u32>, z: seq<u32>, out: seq<u32>, c0: nat, carry: nat)
    requires |x| == |z| == |out|
    requires SumInv(x, z, out, c0, |x|, carry)
    ensures Val(out) + carry * Pow(|x|) == c0 + Val(x) + Val(z)
    ensures Val(out) < Pow(|x|)
  {
    assert x[..|x|] == x && z[..|x|] == z && out[..|x|] == out;
    ValBound(out);
  }

  lemma AboveFromCarry(x: seq<u32>, out: seq<u32>, carry: nat)
    requires |x| == |out| == 8 && carry <= 1
    requires SumInv(x, Complement(L), out, 1, 8, carry)
    ensures carry == if Val(x) >= ORDER then 1 else 0
  {
    CarryOut(x, Complement(L), out, 1, carry);
    ComplementVal(L);
    TableValues();
    ValBound(x);
  }

  /** Is x at least L?  Decided by the carry out of x + ~L + 1. */
  method IsAboveL(x: array<u32>) returns (above: int)
    requires x.Length >= 8
    ensures above == if Val(x[..8]) >= ORDER then 1 else 0
  {
    var carry: u64 := 1;
    ghost var out: seq<u32> := [0, 0, 0, 0, 0, 0, 0, 0];
    ghost var notL := Complement(L);
    var i := 0;
    while i < 8
      invariant 0 <= i <= 8 && |out| == 8 && carry <= 1
      invariant SumInv(x[..8], notL, out, 1, i, carry)
    {
      SumStep(x[..8], notL, out, 1, i, carry);
      carry := carry + x[i] + (BASE - 1 - L[i]);
      out := out[i := carry % BASE];
      carry := carry / BASE;
      i := i + 1;
    }
    AboveFromCarry(x[..8], out, carry);
    above := carry;
  }

  /** `r = x + z + c0` over eight limbs; r and x may be the same array.  The
      carry loop shared by `remove_l` and the subtraction in `mod_l`. */
  method AddRow(r: array<u32>, x: array<u32>, z: seq<u32>, c0: u64) returns (carry: u64)
    requires r.Length >= 8 && x.Length >= 8 && |z| == 8 && c0 <= 1
    modifies r
    ensures carry <= 1
    ensures SumInv(old(x[..8]), z, r[..8], c0, 8, carry)
    ensures forall k :: 8 <= k < r.Length ==> r[k] == old(r[k])
  {
    carry := c0;
    ghost var x0 := x[..8];
    var i := 0;
    while i < 8
      invariant 0 <= i <= 8 && carry <= 1
      invariant SumInv(x0, z, r[..8], c0, i, carry)
      invariant forall k :: i <= k < 8 ==> x[k] == x0[k]
      invariant forall k :: 8 <= k < r.Length ==> r[k] == old(r[k])
    {
      ghost var out := r[..8];
      var t := carry + x[i] + z[i];
      SumStep(x0, z, out, c0, i, carry);
      r[i] := t % BASE;
      assert r[..8] == out[i := r[i]];
      carry := t / BASE;
      i := i + 1;
    }
  }

  /** Conditional subtraction: r and x may be the same array. */
  method RemoveL(r: array<u32>, x: array<u32>)
    requires r.Length >= 8 && x.Length >= 8
    requires Val(x[..8]) < 2 * ORDER
    modifies r
    ensures Val(r[..8]) == if old(Val(x[..8])) >= ORDER then old(Val(x[..8])) - ORDER else old(Val(x[..8]))
    ensures forall k :: 8 <= k < r.Length ==> r[k] == old(r[k])
  {
    var above := IsAboveL(x);
    // the mask is all ones or zero, so `~L[i] & mask` comes from one of two words
    var z := if above == 1 then Complement(L) else [0, 0, 0, 0, 0, 0, 0, 0];
    var carry := AddRow(r, x, z, above);
    RemovedFromCarry(old(x[..8]), z, r[..8], above, carry);
  }

  lemma RemovedFromCarry(x: seq<u32>, z: seq<u32>, out: seq<u32>, above: nat, carry: nat)
    requires |x| == |out| == 8 && carry <= 1 && Val(x) < 2 * ORDER
    requires above == if Val(x) >= ORDER then 1 else 0
    requires z == if above == 1 then Complement(L) else [0, 0, 0, 0, 0, 0, 0, 0]
    requires SumInv(x, z, out, above, 8, carry)
    ensures Val(out) == if above == 1 then Val(x) - ORDER else Val(x)
  {
    CarryOut(x, z, out, above, carry);
    TableValues();
    if above == 1 {
      ComplementVal(L);
    } else {
      ValZeros(z);
    }
  }

  // --------------------------------------------------------- Barrett reduction

  /** The estimated quotient is right or one too small. */
  lemma BarrettQuotient(x: nat, p: nat, r: nat, l: nat)
    requires x < p && l > 0
    requires r * l <= p < (r + 1) * l
    ensures var q := x * r / p; q * l <= x < (q + 2) * l
  {
    var q := x * r / p;
    DivFacts(x * r, p);
    calc {
      (q * l) * p;
    ==  { Regroup3(q, l, p); }
      (q * p) * l;
    <=  { MulMono(q * p, x * r, l); }
      (x * r) * l;
    ==  { Regroup3(x, r, l); }
      x * (r * l);
    <=  { MulMono(r * l, p, x); }
      x * p;
    }
    CancelLe(q * l, x, p);
    StrictBound(x, r, p, l, q);
  }

  lemma StrictBound(x: nat, r: nat, p: nat, l: nat, q: nat)
    requires x < p && l > 0 && p < (r + 1) * l && x * r < q * p + p
    ensures x < (q + 2) * l
  {
    if x >= (q + 2) * l {
      MulMono((q + 2) * l, x, p);
      Regroup3(q + 2, l, p);
      MulMono(p, (r + 1) * l, x);
      Regroup3(x, r + 1, l);
      Distribute(r, 1, x);
      Distribute(q, 2, p);
      MulMono(x * (r + 1) + 1, (q + 2) * p, l);
      Distribute(x * (r + 1), 1, l);
      assert false;
    }
  }

  lemma Regroup3(a: int, b: int, c: int)
    ensures (a * b) * c == (a * c) * b == a * (b * c)
  {
  }

  lemma CancelLe(a: int, b: int, c: nat)
    requires c > 0 && a * c <= b * c
    ensures a <= b
  {
    if a > b { MulMono(b + 1, a, c); Distribute(b, 1, c); }
  }

  lemma DivFacts(a: nat, p: nat)
    requires p > 0
    ensures (a / p) * p <= a < (a / p) * p + p
  {
  }

  lemma LowHalf(p0: seq<u32>, p: seq<u32>, l: seq<u32>, i: nat, x: u32, carry: nat)
    requires i < |l| <= |p0| == |p|
    requires p0[|l|..] == p[|l|..]
    requires RowInv(p0, p, i, x, l[..|l| - i], |l| - i, carry)
    ensures Val(p[..|l|]) + carry * Pow(|l|) == Val(p0[..|l|]) + (x * Pow(i)) * Val(l[..|l| - i])
  {
    var n := |l| - i;
    assert l[..n][..n] == l[..n];
    assert i + n == |l|;
    ValSplit(p0, |l|);
    ValSplit(p, |l|);
  }

  /** A row cut off at limb |l| is the whole product up to a multiple of that weight. */
  lemma LowRow(p0: seq<u32>, p: seq<u32>, l: seq<u32>, i: nat, x: u32, carry: nat) returns (c: nat)
    requires i < |l| <= |p0| == |p|
    requires p0[|l|..] == p[|l|..]
    requires RowInv(p0, p, i, x, l[..|l| - i], |l| - i, carry)
    ensures Val(p[..|l|]) + c * Pow(|l|) == Val(p0[..|l|]) + (x * Pow(i)) * Val(l)
  {
    LowHalf(p0, p, l, i, x, carry);
    var t := SplitRow(l, i, x, carry);
    c := carry + t;
  }

  lemma SplitRow(l: seq<u32>, i: nat, x: u32, carry: nat) returns (t: nat)
    requires i < |l|
    ensures (carry + t) * Pow(|l|) == carry * Pow(|l|) + t * Pow(|l|)
    ensures (x * Pow(i)) * Val(l) == (x * Pow(i)) * Val(l[..|l| - i]) + t * Pow(|l|)
  {
    var n := |l| - i;
    t := x * Val(l[n..]);
    ValSplit(l, n);
    PowAdd(i, n);
    SplitWeights(carry, x, Pow(i), Val(l[..n]), Pow(n), Val(l[n..]), Pow(|l|), Val(l));
  }

  lemma SplitWeights(carry: nat, x: nat, p: nat, lo: nat, r: nat, hi: nat, w: nat, l: nat)
    requires w == p * r && l == lo + r * hi
    ensures (carry + x * hi) * w == carry * w + (x * hi) * w
    ensures (x * p) * l == (x * p) * lo + (x * hi) * w
  {
    Distribute(carry, x * hi, w);
    SumTimes(l, lo, r * hi, x * p);
    Regroup(x, p, hi, r);
    assert r * hi == hi * r;
  }

  lemma SumTimes(s: int, a: int, b: int, c: int)
    requires s == a + b
    ensures s * c == a * c + b * c
  {
  }

  /** The low limbs hold the product by the first i quotient digits, up to t times
      the weight just above them. */
  ghost predicate LowInv(q: seq<u32>, i: nat, low: seq<u32>, l: seq<u32>, t: nat)
    requires i <= |q|
  {
    Val(low) + t * Pow(|low|) == Val(q[..i]) * Val(l)
  }

  lemma LowStep(q: seq<u32>, i: nat, p0: seq<u32>, p: seq<u32>, l: seq<u32>, t: nat, carry: nat) returns (t': nat)
    requires i < |l| <= |p0| == |p| && i < |q|
    requires p0[|l|..] == p[|l|..]
    requires RowInv(p0, p, i, q[i], l[..|l| - i], |l| - i, carry)
    requires LowInv(q, i, p0[..|l|], l, t)
    ensures LowInv(q, i + 1, p[..|l|], l, t')
  {
    var c := LowRow(p0, p, l, i, q[i], carry);
    AddDigit(q, i, t, c, Val(l), Pow(|l|));
    t' := t + c;
  }

  lemma AddDigit(q: seq<u32>, i: nat, t: nat, c: nat, l: nat, w: nat)
    requires i < |q|
    ensures Val(q[..i + 1]) * l == Val(q[..i]) * l + (q[i] * Pow(i)) * l
    ensures (t + c) * w == t * w + c * w
  {
    ValSnoc(q, i);
    SumTimes(Val(q[..i + 1]), Val(q[..i]), q[i] * Pow(i), l);
    Distribute(t, c, w);
  }

  /** `xr = x * R` over 25 limbs, then its top nine limbs are the quotient. */
  lemma QuotientLimbs(xr: seq<u32>, product: nat)
    requires |xr| == 25
    requires Val(xr) == product
    ensures Val(xr[16..]) == product / Pow(16)
  {
    ValSplit(xr, 16);
    ValBound(xr[..16]);
    DivUnique(Val(xr), Pow(16), Val(xr[16..]), Val(xr[..16]));
  }

  lemma DivUnique(a: nat, p: nat, q: nat, r: nat)
    requires a == r + p * q && r < p
    ensures a / p == q && a % p == r
  {
    DivFacts(a, p);
    if a / p < q { MulMono(a / p + 1, q, p); Distribute(a / p, 1, p); }
    if a / p > q { MulMono(q + 1, a / p, p); Distribute(q, 1, p); }
  }

  /** x - q*L, computed modulo 2^256 from the low limbs alone. */
  lemma LowDifference(xl: nat, xh: nat, p: nat, d: nat, low: nat, t: nat, out: nat, carry: nat)
    requires d == xl + p * xh - (low + t * p) && d < p
    requires out + carry * p == 1 + xl + (p - 1 - low) && out < p
    ensures out == d
  {
    var k := xh - t + carry - 1;
    Distribute(xh, t, p);
    Distribute(xh - t, carry, p);
    Distribute(xh - t + carry, 1, p);
    assert d - out == k * p;
    if k >= 1 { MulMono(1, k, p); }
    if k <= -1 { MulMono(k, -1, p); }
  }

  /** The quotient digits that the truncated product skips only add multiples of 2^256. */
  lemma QuotientLow(q: seq<u32>, low: seq<u32>, t: nat) returns (t': nat)
    requires |low| < |q|
    requires LowInv(q, |low|, low, L, t)
    ensures Val(low) + t' * Pow(|low|) == Val(q) * ORDER
  {
    var n := |low|;
    ValSplit(q, n);
    TableValues();
    TopDigits(Val(q[..n]), Pow(n), Val(q[n..]), ORDER, Val(low), t);
    t' := t + Val(q[n..]) * ORDER;
  }

  lemma TopDigits(lo: nat, p: nat, h: nat, l: nat, v: nat, t: nat)
    requires v + t * p == lo * l
    ensures v + (t + h * l) * p == (lo + p * h) * l
  {
    Distribute(lo, p * h, l);
    Distribute(t, h * l, p);
    Regroup3(h, l, p);
    assert p * h == h * p;
  }

  lemma Reduced(x: nat, q: nat, v: nat)
    requires v == x - q * ORDER || v == x - q * ORDER - ORDER
    requires 0 <= v < ORDER
    ensures v == x % ORDER
  {
    if v == x - q * ORDER {
      DivUnique(x, ORDER, q, v);
    } else {
      DivUnique(x, ORDER, q + 1, v);
    }
  }

  /** First product of `mod_l`: xr = R * x. */
  method TimesReciprocal(xr: array<u32>, x: array<u32>)
    requires xr.Length == 25 && x.Length == 16 && x != xr
    requires forall k :: 0 <= k < 25 ==> xr[k] == 0
    modifies xr
    ensures Val(xr[..]) == RECIPROCAL * Val(x[..])
  {
    ValZeros(xr[..]);
    var i := 0;
    while i < 9
      invariant 0 <= i <= 9
      invariant x[..] == old(x[..])
      invariant Val(xr[..]) == Val(R[..i]) * Val(x[..])
      invariant forall k :: i + 16 <= k < 25 ==> xr[k] == 0
    {
      ghost var p0 := xr[..];
      var carry := MulRow(xr, i, R[i], x[..]);
      ghost var p1 := xr[..];
      RowDone(p0, p1, i, R, x[..], carry, 0);
      xr[i + 16] := carry;
      assert xr[..] == p1[i + 16 := xr[i + 16]];
      i := i + 1;
    }
    assert R[..9] == R;
    TableValues();
  }

  /** Second product of `mod_l`: the low 256 bits of floor(xr / 2^512) * L. */
  method QuotientTimesL(xr: array<u32>) returns (ghost t: nat)
    requires xr.Length == 25
    modifies xr
    ensures Val(xr[..8]) + t * Pow(|xr[..8]|) == Val(old(xr[16..])) * ORDER
  {
    var i := 0;
    while i < 8
      invariant 0 <= i <= 8
      invariant forall k :: 0 <= k < i ==> xr[k] == 0
      invariant xr[8..] == old(xr[8..])
    {
      xr[i] := 0;
      i := i + 1;
    }
    ValZeros(xr[..8]);
    t := 0;
    i := 0;
    ghost var q := xr[16..];
    assert q == xr[8..][8..] == old(xr[8..])[8..] == old(xr[16..]);
    assert LowInv(q, 0, xr[..8], L, 0);
    while i < 8
      invariant 0 <= i <= 8
      invariant xr[8..] == old(xr[8..])
      invariant LowInv(q, i, xr[..8], L, t)
    {
      ghost var p0 := xr[..];
      var digit := xr[i + 16];
      assert digit == xr[8..][i + 8] == q[i];
      var carry := MulRow(xr, i, digit, L[..8 - i]);
      assert xr[..][..8] == xr[..8] && p0[..8] == p0[..8];
      assert p0[8..] == xr[..][8..];
      t := LowStep(q, i, p0, xr[..], L, t, carry);
      i := i + 1;
    }
    t := QuotientLow(q, xr[..8], t);
  }

  /** Full reduction of a 512-bit number. */
  method ModL(x: array<u32>) returns (xr: array<u32>)
    requires x.Length == 16
    ensures fresh(xr) && xr.Length == 25
    ensures Val(xr[..8]) == Val(x[..]) % ORDER
  {
    xr := new u32[25](_ => 0);
    TimesReciprocal(xr, x);
    ghost var q := Val(xr[16..]);
    Barrett(x[..], xr[..]);
    assert xr[..][16..] == xr[16..];
    var t := QuotientTimesL(xr);
    SubtractInto(x, xr, q, t);
    RemoveL(xr, xr);
    Reduced(Val(x[..]), q, Val(xr[..8]));
  }

  /** The top limbs of xr = R * x are a quotient at most one too small. */
  lemma Barrett(x: seq<u32>, xr: seq<u32>)
    requires |x| == 16 && |xr| == 25
    requires Val(xr) == RECIPROCAL * Val(x)
    ensures 0 <= Val(x) - Val(xr[16..]) * ORDER < 2 * ORDER
  {
    QuotientLimbs(xr, Val(xr));
    TableValues();
    ValBound(x);
    BarrettQuotient(Val(x), Pow(16), RECIPROCAL, ORDER);
  }

  /** `xr = x - xr` modulo 2^256, where xr holds the low part of q * L. */
  method SubtractInto(x: array<u32>, xr: array<u32>, ghost q: nat, ghost t: nat)
    requires x.Length == 16 && xr.Length == 25 && x != xr
    requires 0 <= Val(x[..]) - q * ORDER < 2 * ORDER
    requires Val(xr[..8]) + t * Pow(|xr[..8]|) == q * ORDER
    modifies xr
    ensures Val(xr[..8]) == Val(x[..]) - q * ORDER
  {
    ghost var low := xr[..8];
    var z := Complement(xr[..8]);
    var carry := AddRow(xr, x, z, 1);
    Subtracted(x[..], low, xr[..8], q, t, carry);
  }

  lemma Subtracted(x: seq<u32>, low: seq<u32>, out: seq<u32>, q: nat, t: nat, carry: nat)
    requires |x| == 16 && |low| == |out| == 8
    requires 0 <= Val(x) - q * ORDER < 2 * ORDER
    requires Val(low) + t * Pow(|low|) == q * ORDER
    requires SumInv(x[..8], Complement(low), out, 1, 8, carry)
    ensures Val(out) == Val(x) - q * ORDER
  {
    var n := |low|;
    CarryOut(x[..n], Complement(low), out, 1, carry);
    ComplementVal(low);
    TableValues();
    ValSplit(x, n);
    LowDifference(Val(x[..n]), Val(x[n..]), Pow(n), Val(x) - q * ORDER, Val(low), t, Val(out), carry);
  }

  // ------------------------------------------------------------ byte interface

  function Le32(b0: int, b1: int, b2: int, b3: int): int
  {
    b0 + 0x100 * b1 + 0x1_0000 * b2 + 0x100_0000 * b3
  }

  function Word(b: seq<u8>, i: nat): u32
    requires 4 * i + 4 <= |b|
  {
    Le32(b[4 * i], b[4 * i + 1], b[4 * i + 2], b[4 * i + 3])
  }

  ghost predicate Packs(b: seq<u8>, l: seq<u32>)
  {
    |b| == 4 * |l| && forall i :: 0 <= i < |l| ==> l[i] == Word(b, i)
  }

  lemma {:induction false} PackedVal(b: seq<u8>, l: seq<u32>)
    requires Packs(b, l)
    ensures ByteVal(b) == Val(l)
  {
    if |l| == 0 {
    } else {
      ValHead(l);
      assert Packs(b[4..], l[1..]) by {
        forall i | 0 <= i < |l| - 1 ensures l[1..][i] == Word(b[4..], i) {
          assert l[i + 1] == Word(b, i + 1);
        }
      }
      PackedVal(b[4..], l[1..]);
      assert b[1..][1..] == b[2..] && b[2..][1..] == b[3..] && b[3..][1..] == b[4..];
      assert l[0] == Word(b, 0);
      assert ByteVal(b[1..]) == b[1] + 0x100 * ByteVal(b[2..]);
      assert ByteVal(b[2..]) == b[2] + 0x100 * ByteVal(b[3..]);
      assert ByteVal(b[3..]) == b[3] + 0x100 * ByteVal(b[4..]);
    }
  }

  method Load32LeBuf(dst: array<u32>, src: array<u8>, size: nat)
    requires size <= dst.Length && 4 * size == src.Length
    modifies dst
    ensures Val(dst[..size]) == ByteVal(src[..])
    ensures forall k :: size <= k < dst.Length ==> dst[k] == old(dst[k])
  {
    var i := 0;
    while i < size
      invariant 0 <= i <= size
      invariant forall k :: 0 <= k < i ==> dst[k] == Word(src[..], k)
      invariant forall k :: size <= k < dst.Length ==> dst[k] == old(dst[k])
    {
      dst[i] := Le32(src[4 * i], src[4 * i + 1], src[4 * i + 2], src[4 * i + 3]);
      i := i + 1;
    }
    PackedVal(src[..], dst[..size]);
  }

  method Store32LeBuf(dst: array<u8>, src: array<u32>, size: nat)
    requires 4 * size == dst.Length && size <= src.Length
    modifies dst
    ensures ByteVal(dst[..]) == Val(src[..size])
  {
    var i := 0;
    while i < size
      invariant 0 <= i <= size
      invariant forall k :: 0 <= k < i ==> Word(dst[..], k) == src[k]
    {
      ghost var was := dst[..];
      var x := src[i];
      dst[4 * i] := x % 0x100;
      dst[4 * i + 1] := x / 0x100 % 0x100;
      dst[4 * i + 2] := x / 0x1_0000 % 0x100;
      dst[4 * i + 3] := x / 0x100_0000;
      SplitWord(x);
      forall k | 0 <= k < i ensures Word(dst[..], k) == src[k] {
        assert Word(was, k) == src[k];
      }
      i := i + 1;
    }
    PackedVal(dst[..], src[..size]);
  }

  lemma SplitWord(x: u32)
    ensures x == Le32(x % 0x100, x / 0x100 % 0x100, x / 0x1_0000 % 0x100, x / 0x100_0000)
  {
    assert x / 0x100 / 0x100 == x / 0x1_0000 && x / 0x1_0000 / 0x100 == x / 0x100_0000;
  }

  /** Reduce a 64-byte number modulo the group order. */
  method EddsaReduce(reduced: array<u8>, expanded: array<u8>)
    requires reduced.Length == 32 && expanded.Length == 64
    modifies reduced
    ensures ByteVal(reduced[..]) == ByteVal(old(expanded[..])) % ORDER
  {
    var x := new u32[16];
    Load32LeBuf(x, expanded, 16);
    assert x[..16] == x[..];
    var xr := ModL(x);
    Store32LeBuf(reduced, xr, 8);
  }

  /** r = (a * b + c) mod L, for all 256-bit operands; r may overlap them. */
  method EddsaMulAdd(r: array<u8>, a: array<u8>, b: array<u8>, c: array<u8>)
    requires r.Length == a.Length == b.Length == c.Length == 32
    modifies r
    ensures ByteVal(r[..]) == (ByteVal(old(a[..])) * ByteVal(old(b[..])) + ByteVal(old(c[..]))) % ORDER
  {
    var A := LoadLimbs(a, 8);
    var B := LoadLimbs(b, 8);
    var p := LoadLimbs(c, 16);
    Multiply(p, A, B);
    SameProduct(Val(A[..]), ByteVal(a[..]), Val(B[..]), ByteVal(b[..]));
    var xr := ModL(p);
    Store32LeBuf(r, xr, 8);
  }

  /** The limbs of a 32-byte string, zero above. */
  method LoadLimbs(src: array<u8>, n: nat) returns (x: array<u32>)
    requires src.Length == 32 && n >= 8
    ensures fresh(x) && x.Length == n && Val(x[..]) == ByteVal(src[..]) && forall k :: 8 <= k < n ==> x[k] == 0
  {
    x := new u32[n](_ => 0);
    Load32LeBuf(x, src, 8);
    LowOnly(x[..], 8);
    assert x[..][..8] == x[..8];
  }

  lemma LowOnly(p: seq<u32>, n: nat)
    requires n <= |p| && forall k :: n <= k < |p| ==> p[k] == 0
    ensures Val(p) == Val(p[..n])
  {
    ValSplit(p, n);
    ValZeros(p[n..]);
  }

  lemma SameProduct(a: int, a': int, b: int, b': int)
    requires a == a' && b == b'
    ensures a * b == a' * b'
  {
  }
}
