/** Multi-precision naturals as little-endian sequences of 32-bit limbs, the
    representation used by the scalar arithmetic of lib/monocypher. */
module Limbs {
  import opened Bytes

  const BASE: int := 0x1_0000_0000

  function Pow(k: nat): (p: nat)
    ensures p > 0
  {
    if k == 0 then 1 else BASE * Pow(k - 1)
  }

  /** The number a limb sequence stands for. */
  function Val(s: seq<u32>): nat
  {
    if |s| == 0 then 0 else Val(s[..|s| - 1]) + s[|s| - 1] * Pow(|s| - 1)
  }

  lemma {:induction false} PowAdd(j: nat, k: nat)
    ensures Pow(j + k) == Pow(j) * Pow(k)
  {
    if k == 0 {
    } else {
      PowAdd(j, k - 1);
      assert Pow(j + k) == BASE * Pow(j + (k - 1));
      assert BASE * (Pow(j) * Pow(k - 1)) == Pow(j) * (BASE * Pow(k - 1));
    }
  }

  lemma {:induction false} ValBound(s: seq<u32>)
    ensures Val(s) < Pow(|s|)
  {
    if |s| == 0 {
    } else {
      var n := |s| - 1;
      ValBound(s[..n]);
      assert s[n] * Pow(n) <= (BASE - 1) * Pow(n) by {
        MulMono(s[n], BASE - 1, Pow(n));
      }
      assert Pow(n + 1) == BASE * Pow(n) == (BASE - 1) * Pow(n) + Pow(n);
    }
  }

  lemma MulMono(a: int, b: int, c: nat)
    requires a <= b
    ensures a * c <= b * c
  {
  }

  /** Appending a limb at the top. */
  lemma ValSnoc(s: seq<u32>, k: nat)
    requires k < |s|
    ensures Val(s[..k + 1]) == Val(s[..k]) + s[k] * Pow(k)
  {
    assert s[..k + 1][..k] == s[..k];
  }

  /** Changing one limb moves the value by the difference at that weight. */
  lemma {:induction false} ValUpdate(s: seq<u32>, k: nat, v: u32)
    requires k < |s|
    ensures Val(s[k := v]) == Val(s) + (v - s[k]) * Pow(k)
  {
    var n := |s| - 1;
    var t := s[k := v];
    if k == n {
      assert t[..n] == s[..n];
      Distribute(v, s[n], Pow(n));
    } else {
      assert t[..n] == s[..n][k := v];
      ValUpdate(s[..n], k, v);
    }
  }

  lemma Distribute(a: int, b: int, c: int)
    ensures (a - b) * c == a * c - b * c
    ensures (a + b) * c == a * c + b * c
  {
  }

  lemma {:induction false} ValSplit(s: seq<u32>, k: nat)
    requires k <= |s|
    ensures Val(s) == Val(s[..k]) + Pow(k) * Val(s[k..])
  {
    if k == |s| {
      assert s[..k] == s && s[k..] == [];
    } else {
      var n := |s| - 1;
      ValSplit(s[..n], k);
      assert s[..n][..k] == s[..k];
      assert s[k..][..n - k] == s[..n][k..];
      PowAdd(k, n - k);
      assert s[k..][n - k] == s[n];
      assert Val(s[k..]) == Val(s[..n][k..]) + s[n] * Pow(n - k);
      FactorOut(Pow(k), Val(s[..n][k..]), s[n], Pow(n - k));
    }
  }

  lemma FactorOut(p: int, v: int, d: int, q: int)
    ensures p * (v + d * q) == p * v + d * (p * q)
  {
    Distribute(v, d * q, p);
    assert p * (d * q) == d * (p * q);
  }

  lemma {:induction false} ValZeros(s: seq<u32>)
    requires forall k :: 0 <= k < |s| ==> s[k] == 0
    ensures Val(s) == 0
  {
    if |s| == 0 {
    } else {
      ValZeros(s[..|s| - 1]);
    }
  }

  /** One step of a schoolbook row: limb k receives carry + limb + product, the
      overflow moves one limb up, and nothing is lost. */
  lemma CarryStep(s: seq<u32>, k: nat, carry: nat, add: nat)
    requires k < |s|
    ensures var t := carry + s[k] + add;
            Val(s[k := t % BASE]) + (t / BASE) * Pow(k + 1) == Val(s) + (carry + add) * Pow(k)
  {
    var t := carry + s[k] + add;
    ValUpdate(s, k, t % BASE);
    var P := Pow(k);
    assert (t / BASE) * Pow(k + 1) == ((t / BASE) * BASE) * P;
    Distribute(t % BASE - s[k], (t / BASE) * BASE, P);
    assert t % BASE - s[k] + (t / BASE) * BASE == carry + add;
  }

  /** The largest 32x32 product plus two 32-bit addends still fits in 64 bits. */
  lemma ProductFits(carry: nat, limb: u32, x: u32, y: u32)
    requires carry < BASE
    ensures 0 <= x * y
    ensures carry + limb + x * y < BASE * BASE
    ensures (carry + limb + x * y) / BASE < BASE
  {
    MulMono(x, BASE - 1, y);
    MulMono(y, BASE - 1, BASE - 1);
    assert x * y <= (BASE - 1) * (BASE - 1);
  }

  /** The state of a row after j products: what has been added so far, with the
      pending carry counted at its weight. */
  ghost predicate RowInv(p0: seq<u32>, p: seq<u32>, off: nat, x: u32, b: seq<u32>, j: nat, carry: nat)
    requires j <= |b|
  {
    Val(p) + carry * Pow(off + j) == Val(p0) + (x * Pow(off)) * Val(b[..j])
  }

  lemma RowStep(p0: seq<u32>, p: seq<u32>, off: nat, x: u32, b: seq<u32>, j: nat, carry: nat)
    requires j < |b| && off + j < |p|
    requires RowInv(p0, p, off, x, b, j, carry)
    ensures var t := carry + p[off + j] + x * b[j];
            RowInv(p0, p[off + j := t % BASE], off, x, b, j + 1, t / BASE)
  {
    CarryStep(p, off + j, carry, x * b[j]);
    RowTerm(b, j, off, x);
    Distribute(carry, x * b[j], Pow(off + j));
  }

  /** The weight bookkeeping of one row step. */
  lemma RowTerm(b: seq<u32>, j: nat, off: nat, x: u32)
    requires j < |b|
    ensures (x * Pow(off)) * Val(b[..j + 1]) == (x * Pow(off)) * Val(b[..j]) + (x * b[j]) * Pow(off + j)
  {
    ValSnoc(b, j);
    PowAdd(off, j);
    TermWeight(x, Pow(off), b[j], Pow(j), Pow(off + j), Val(b[..j]), Val(b[..j + 1]));
  }

  lemma TermWeight(x: int, p: int, d: int, q: int, pq: int, lo: int, hi: int)
    requires pq == p * q && hi == lo + d * q
    ensures (x * p) * hi == (x * p) * lo + (x * d) * pq
  {
    Distribute(lo, d * q, x * p);
    Regroup(x, p, d, q);
  }

  lemma Regroup(a: int, b: int, c: int, d: int)
    ensures (a * b) * (c * d) == (a * c) * (b * d)
  {
  }

  /** `p[off..] += x * b`, returning the limb that belongs at `p[off + |b|]`:
      the inner loop shared by `multiply` and both products of `mod_l`. */
  method MulRow(p: array<u32>, off: nat, x: u32, b: seq<u32>) returns (carry: u64)
    requires off + |b| <= p.Length
    modifies p
    ensures carry < BASE
    ensures RowInv(old(p[..]), p[..], off, x, b, |b|, carry)
    ensures forall k :: 0 <= k < p.Length && !(off <= k < off + |b|) ==> p[k] == old(p[k])
  {
    carry := 0;
    var j := 0;
    while j < |b|
      invariant 0 <= j <= |b|
      invariant carry < BASE
      invariant RowInv(old(p[..]), p[..], off, x, b, j, carry)
      invariant forall k :: 0 <= k < p.Length && !(off <= k < off + j) ==> p[k] == old(p[k])
    {
      ghost var was := p[..];
      ProductFits(carry, p[off + j], x, b[j]);
      RowStep(old(p[..]), was, off, x, b, j, carry);
      carry := carry + p[off + j] + x * b[j];
      p[off + j] := carry % BASE;
      carry := carry / BASE;
      assert p[..] == was[off + j := p[off + j]];
      j := j + 1;
    }
  }
}
