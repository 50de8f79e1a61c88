/** Bitwise operators on naturals, by their binary digits. */
module BitOps {

  function Pow2(k: nat): (p: int)
    ensures p > 0
  {
    if k == 0 then 1 else 2 * Pow2(k - 1)
  }

  /** Bitwise exclusive or. */
  function Xor(a: nat, b: nat): nat
  {
    if a == 0 && b == 0 then 0 else (if a % 2 == b % 2 then 0 else 1) + 2 * Xor(a / 2, b / 2)
  }

  lemma {:induction false} XorInjective(a: nat, b: nat, c: nat)
    requires Xor(a, b) == Xor(a, c)
    ensures b == c
    decreases a + b + c
  {
    if a != 0 || b != 0 || c != 0 {
      XorInjective(a / 2, b / 2, c / 2);
    }
  }

  lemma {:induction false} XorZero(a: nat)
    ensures Xor(a, 0) == a && Xor(a, a) == 0
  {
    if a > 0 { XorZero(a / 2); }
  }

  lemma {:induction false} XorBound(a: nat, b: nat, n: nat)
    requires a < Pow2(n) && b < Pow2(n)
    ensures Xor(a, b) < Pow2(n)
    decreases n
  {
    if n > 0 && (a != 0 || b != 0) { XorBound(a / 2, b / 2, n - 1); }
  }

  lemma {:induction false} XorCommutes(a: nat, b: nat)
    ensures Xor(a, b) == Xor(b, a)
    decreases a + b
  {
    if a != 0 || b != 0 { XorCommutes(a / 2, b / 2); }
  }

  /** A bit set in one operand only is set in the result. */
  lemma {:induction false} XorTop(a: nat, b: nat, n: nat)
    requires a < Pow2(n) <= b < 2 * Pow2(n)
    ensures Xor(a, b) >= Pow2(n)
    decreases n
  {
    if n > 0 { XorTop(a / 2, b / 2, n - 1); }
  }

  /** Bitwise or. */
  function Or(a: nat, b: nat): nat
  {
    if a == 0 && b == 0 then 0 else (if a % 2 == 0 && b % 2 == 0 then 0 else 1) + 2 * Or(a / 2, b / 2)
  }

  lemma {:induction false} OrZero(a: nat)
    ensures Or(0, a) == a && Or(a, 0) == a
  {
    if a > 0 { OrZero(a / 2); }
  }

  lemma Twice(a: int, p: int, q: int)
    requires q == 2 * p
    ensures a * q == 2 * (a * p)
  {
  }

  /** Where the low n bits of a are clear, or-ing in an n-bit number is adding it. */
  lemma {:induction false} OrLow(a: nat, b: nat, n: nat)
    requires b < Pow2(n)
    ensures Or(a * Pow2(n), b) == a * Pow2(n) + b
  {
    if n == 0 {
      OrZero(a);
    } else {
      Twice(a, Pow2(n - 1), Pow2(n));
      OrLow(a, b / 2, n - 1);
    }
  }

  /** Shifting both operands shifts the result. */
  lemma {:induction false} OrShift(a: nat, b: nat, n: nat)
    ensures Or(a * Pow2(n), b * Pow2(n)) == Or(a, b) * Pow2(n)
  {
    if n > 0 {
      var p, q := Pow2(n - 1), Pow2(n);
      Twice(a, p, q);
      Twice(b, p, q);
      Twice(Or(a, b), p, q);
      OrShift(a, b, n - 1);
    }
  }

  /** Binary digit k of a. */
  function Bit(a: nat, k: nat): nat
  {
    a / Pow2(k) % 2
  }

  lemma {:induction false} BitHalf(a: nat, k: nat)
    ensures Bit(a, k + 1) == Bit(a / 2, k)
  {
    HalfTwice(a, Pow2(k));
  }

  lemma HalfTwice(a: nat, p: int)
    requires p > 0
    ensures a / 2 / p == a / (2 * p)
  {
    var q, r := a / (2 * p), a % (2 * p);
    assert a == 2 * (q * p) + r;
    var y := r / 2;
    assert a / 2 == q * p + y && 0 <= y < p;
    Floor(a / 2, p, q, y);
  }

  lemma Floor(x: int, p: int, q: int, r: int)
    requires p > 0 && x == q * p + r && 0 <= r < p
    ensures x / p == q
  {
    var d := x / p - q;
    assert d * p == r - x % p;
    Apart(d, p);
  }

  lemma Apart(d: int, p: int)
    requires p > 0
    ensures (d >= 1 ==> d * p >= p) && (d <= -1 ==> d * p <= -p)
  {
  }

  /** A digit of the exclusive or is set exactly when it is set in one operand only. */
  lemma {:induction false} XorBits(a: nat, b: nat, k: nat)
    ensures Bit(Xor(a, b), k) == if Bit(a, k) == Bit(b, k) then 0 else 1
    decreases k
  {
    if k > 0 {
      XorHalf(a, b);
      BitHalf(a, k - 1);
      BitHalf(b, k - 1);
      BitHalf(Xor(a, b), k - 1);
      XorBits(a / 2, b / 2, k - 1);
    }
  }

  lemma XorHalf(a: nat, b: nat)
    ensures Xor(a, b) / 2 == Xor(a / 2, b / 2)
  {
  }

  /** A digit of the or is set exactly when it is set in either operand. */
  lemma {:induction false} OrBits(a: nat, b: nat, k: nat)
    ensures Bit(Or(a, b), k) == if Bit(a, k) == 0 && Bit(b, k) == 0 then 0 else 1
    decreases k
  {
    if k > 0 {
      OrHalf(a, b);
      BitHalf(a, k - 1);
      BitHalf(b, k - 1);
      BitHalf(Or(a, b), k - 1);
      OrBits(a / 2, b / 2, k - 1);
    }
  }

  lemma OrHalf(a: nat, b: nat)
    ensures Or(a, b) / 2 == Or(a / 2, b / 2)
  {
  }
}
