/** Commutative groups given by their operations, and integer multiples in them; the
    points of the signature curve are one. */
module Groups {

  datatype Group<!T> = Group(zero: T, double: T -> T, add: (T, T) -> T, sub: (T, T) -> T)

  ghost predicate Associates<T>(g: Group<T>, x: T, y: T, z: T)
  {
    g.add(g.add(x, y), z) == g.add(x, g.add(y, z))
  }

  ghost predicate Commutes<T>(g: Group<T>, x: T, y: T)
  {
    g.add(x, y) == g.add(y, x)
  }

  /** Zero is neutral, doubling is adding to itself. */
  ghost predicate Steady<T>(g: Group<T>, x: T)
  {
    g.add(x, g.zero) == x && g.double(x) == g.add(x, x)
  }

  /** Adding undoes subtracting. */
  ghost predicate Undoes<T>(g: Group<T>, x: T, y: T)
  {
    g.add(g.sub(x, y), y) == x
  }

  ghost predicate Laws<T(!new)>(g: Group<T>)
  {
    && (forall x, y, z :: Associates(g, x, y, z))
    && (forall x, y :: Commutes(g, x, y))
    && (forall x :: Steady(g, x))
    && (forall x, y :: Undoes(g, x, y))
  }

  /** [n]p. */
  ghost function Times<T>(g: Group<T>, n: int, p: T): T
    decreases if n < 0 then -n else n
  {
    if n == 0 then g.zero
    else if n > 0 then g.add(Times(g, n - 1, p), p)
    else g.sub(Times(g, n + 1, p), p)
  }

  lemma Cancel<T(!new)>(g: Group<T>, u: T, v: T, y: T)
    requires Laws(g) && g.add(u, y) == g.add(v, y)
    ensures u == v
  {
    var n := g.sub(g.zero, y);
    assert Undoes(g, g.zero, y) && Commutes(g, n, y);
    assert Associates(g, u, y, n) && Associates(g, v, y, n);
    assert Steady(g, u) && Steady(g, v);
  }

  lemma Succ<T(!new)>(g: Group<T>, n: int, p: T)
    requires Laws(g)
    ensures Times(g, n + 1, p) == g.add(Times(g, n, p), p)
  {
    if n < 0 { assert Undoes(g, Times(g, n + 1, p), p); }
  }

  lemma Once<T(!new)>(g: Group<T>, p: T)
    requires Laws(g)
    ensures Times(g, 1, p) == p
  {
    Succ(g, 0, p);
    assert Commutes(g, g.zero, p) && Steady(g, p);
  }

  lemma {:induction false} Sum<T(!new)>(g: Group<T>, a: int, b: int, p: T)
    requires Laws(g)
    ensures Times(g, a + b, p) == g.add(Times(g, a, p), Times(g, b, p))
    decreases if b < 0 then -b else b
  {
    var x := Times(g, a, p);
    if b == 0 {
      assert Steady(g, x);
    } else if b > 0 {
      Sum(g, a, b - 1, p);
      Succ(g, a + b - 1, p);
      Succ(g, b - 1, p);
      assert Associates(g, x, Times(g, b - 1, p), p);
    } else {
      Sum(g, a, b + 1, p);
      Succ(g, a + b, p);
      Succ(g, b, p);
      assert Associates(g, x, Times(g, b, p), p);
      Cancel(g, Times(g, a + b, p), g.add(x, Times(g, b, p)), p);
    }
  }

  /** Subtracting a multiple is adding the opposite one. */
  lemma SubTimes<T(!new)>(g: Group<T>, x: T, n: int, p: T)
    requires Laws(g)
    ensures g.sub(x, Times(g, n, p)) == g.add(x, Times(g, -n, p))
  {
    var y := Times(g, n, p);
    Sum(g, -n, n, p);
    assert Associates(g, x, Times(g, -n, p), y) && Steady(g, x) && Undoes(g, x, y);
    Cancel(g, g.sub(x, y), g.add(x, Times(g, -n, p)), y);
  }

  /** Subtracting is adding what is left of zero. */
  lemma SubIsAdd<T(!new)>(g: Group<T>, x: T, y: T)
    requires Laws(g)
    ensures g.sub(x, y) == g.add(x, g.sub(g.zero, y))
  {
    Once(g, y);
    SubTimes(g, x, 1, y);
    SubTimes(g, g.zero, 1, y);
    assert Commutes(g, g.zero, Times(g, -1, y)) && Steady(g, Times(g, -1, y));
  }

  /** [n](-p) = [-n]p. */
  lemma {:induction false} TimesOpposite<T(!new)>(g: Group<T>, n: int, p: T)
    requires Laws(g) && n >= 0
    ensures Times(g, n, g.sub(g.zero, p)) == Times(g, -n, p)
  {
    if n > 0 {
      TimesOpposite(g, n - 1, p);
      Sum(g, 1 - n, -1, p);
      assert Times(g, -1, p) == g.sub(Times(g, 0, p), p);
    }
  }

  lemma {:induction false} TimesZero<T(!new)>(g: Group<T>, n: nat)
    requires Laws(g)
    ensures Times(g, n, g.zero) == g.zero
  {
    if n > 0 {
      TimesZero(g, n - 1);
      assert Steady(g, g.zero);
    }
  }

  lemma {:induction false} Product<T(!new)>(g: Group<T>, m: nat, n: nat, p: T)
    requires Laws(g)
    ensures Times(g, m * n, p) == Times(g, m, Times(g, n, p))
  {
    if m > 0 {
      Product(g, m - 1, n, p);
      Sum(g, (m - 1) * n, n, p);
      assert (m - 1) * n + n == m * n;
    }
  }

  /** The middle terms of a sum of four may change places. */
  lemma Exchange<T(!new)>(g: Group<T>, w: T, x: T, y: T, z: T)
    requires Laws(g)
    ensures g.add(g.add(w, x), g.add(y, z)) == g.add(g.add(w, y), g.add(x, z))
  {
    assert Associates(g, w, x, g.add(y, z)) && Associates(g, x, y, z) && Commutes(g, x, y);
    assert Associates(g, y, x, z) && Associates(g, w, y, g.add(x, z));
  }

  /** [n](x + y) = [n]x + [n]y. */
  lemma {:induction false} TimesPlus<T(!new)>(g: Group<T>, n: nat, x: T, y: T)
    requires Laws(g)
    ensures Times(g, n, g.add(x, y)) == g.add(Times(g, n, x), Times(g, n, y))
  {
    if n > 0 {
      TimesPlus(g, n - 1, x, y);
      Exchange(g, Times(g, n - 1, x), Times(g, n - 1, y), x, y);
    } else {
      assert Steady(g, g.zero);
    }
  }

  // ------------------------------------------------------- combinations of two points

  /** [a]p + [b]q. */
  ghost function Combined<T>(g: Group<T>, a: int, p: T, b: int, q: T): T
  {
    g.add(Times(g, a, p), Times(g, b, q))
  }

  lemma CombinedNone<T(!new)>(g: Group<T>, p: T, q: T)
    requires Laws(g)
    ensures Combined(g, 0, p, 0, q) == g.zero
  {
    assert Steady(g, g.zero);
  }

  lemma CombinedDouble<T(!new)>(g: Group<T>, a: int, p: T, b: int, q: T)
    requires Laws(g)
    ensures g.double(Combined(g, a, p, b, q)) == Combined(g, 2 * a, p, 2 * b, q)
  {
    assert Steady(g, Combined(g, a, p, b, q));
    Exchange(g, Times(g, a, p), Times(g, b, q), Times(g, a, p), Times(g, b, q));
    Sum(g, a, a, p);
    Sum(g, b, b, q);
  }

  lemma CombinedFirst<T(!new)>(g: Group<T>, a: int, p: T, b: int, q: T, d: int)
    requires Laws(g)
    ensures g.add(Combined(g, a, p, b, q), Times(g, d, p)) == Combined(g, a + d, p, b, q)
  {
    var x, y, z := Times(g, a, p), Times(g, b, q), Times(g, d, p);
    assert Associates(g, x, y, z) && Commutes(g, y, z) && Associates(g, x, z, y);
    Sum(g, a, d, p);
  }

  lemma CombinedSecond<T(!new)>(g: Group<T>, a: int, p: T, b: int, q: T, d: int)
    requires Laws(g)
    ensures g.add(Combined(g, a, p, b, q), Times(g, d, q)) == Combined(g, a, p, b + d, q)
  {
    assert Associates(g, Times(g, a, p), Times(g, b, q), Times(g, d, q));
    Sum(g, b, d, q);
  }

  /** [a](-p) + [b]q = [b]q - [a]p. */
  lemma CombinedOpposite<T(!new)>(g: Group<T>, a: int, p: T, b: int, q: T)
    requires Laws(g) && a >= 0
    ensures Combined(g, a, g.sub(g.zero, p), b, q) == g.sub(Times(g, b, q), Times(g, a, p))
  {
    TimesOpposite(g, a, p);
    SubTimes(g, Times(g, b, q), a, p);
    assert Commutes(g, Times(g, -a, p), Times(g, b, q));
  }

  /** Two points and all combinations of them. */
  datatype Span<!T> = Span(p: T, q: T, at: (int, int) -> T)

  ghost predicate Spans<T(!new)>(g: Group<T>, span: Span<T>)
  {
    forall a, b {:trigger Combined(g, a, span.p, b, span.q)} :: span.at(a, b) == Combined(g, a, span.p, b, span.q)
  }
}
