/** Abelian groups, which stand for the points of the curve, and multiples in them. */
module Group {
  import opened Words

  /** `ge_zero`, `ge_add` and negation. */
  datatype Group<!G> = Group(zero: G, add: (G, G) -> G, neg: G -> G)

  ghost predicate IsAbelian<G(!new)>(g: Group<G>) {
    && (forall x, y, z :: g.add(g.add(x, y), z) == g.add(x, g.add(y, z)))
    && (forall x, y :: g.add(x, y) == g.add(y, x))
    && (forall x :: g.add(x, g.zero) == x)
    && (forall x :: g.add(x, g.neg(x)) == g.zero)
  }

  /** The multiple [n]x. */
  ghost function Times<G>(g: Group<G>, n: int, x: G): G
    decreases if n < 0 then 1 - n else n
  {
    if n == 0 then g.zero
    else if n > 0 then g.add(Times(g, n - 1, x), x)
    else g.neg(Times(g, -n, x))
  }

  lemma Assoc<G(!new)>(g: Group<G>, x: G, y: G, z: G)
    requires IsAbelian(g)
    ensures g.add(g.add(x, y), z) == g.add(x, g.add(y, z))
  {
  }

  lemma Comm<G(!new)>(g: Group<G>, x: G, y: G)
    requires IsAbelian(g)
    ensures g.add(x, y) == g.add(y, x)
  {
  }

  lemma ZeroRight<G(!new)>(g: Group<G>, x: G)
    requires IsAbelian(g)
    ensures g.add(x, g.zero) == x && g.add(g.zero, x) == x
  {
    Comm(g, x, g.zero);
  }

  lemma Inverse<G(!new)>(g: Group<G>, x: G)
    requires IsAbelian(g)
    ensures g.add(x, g.neg(x)) == g.zero && g.add(g.neg(x), x) == g.zero
  {
    Comm(g, x, g.neg(x));
  }

  /** (w + x) + (y + z) == (w + y) + (x + z) */
  lemma Interchange<G(!new)>(g: Group<G>, w: G, x: G, y: G, z: G)
    requires IsAbelian(g)
    ensures g.add(g.add(w, x), g.add(y, z)) == g.add(g.add(w, y), g.add(x, z))
  {
    hide IsAbelian;
    Assoc(g, w, x, g.add(y, z));
    Assoc(g, x, y, z);
    Comm(g, x, y);
    Assoc(g, y, x, z);
    Assoc(g, w, y, g.add(x, z));
  }

  /** x + y == 0 only for y == -x. */
  lemma InverseUnique<G(!new)>(g: Group<G>, x: G, y: G)
    requires IsAbelian(g) && g.add(x, y) == g.zero
    ensures y == g.neg(x)
  {
    hide IsAbelian;
    Inverse(g, x);
    Assoc(g, g.neg(x), x, y);
    ZeroRight(g, y);
    ZeroRight(g, g.neg(x));
  }

  lemma NegSum<G(!new)>(g: Group<G>, x: G, y: G)
    requires IsAbelian(g)
    ensures g.neg(g.add(x, y)) == g.add(g.neg(x), g.neg(y))
  {
    hide IsAbelian;
    Interchange(g, x, y, g.neg(x), g.neg(y));
    Inverse(g, x);
    Inverse(g, y);
    ZeroRight(g, g.zero);
    InverseUnique(g, g.add(x, y), g.add(g.neg(x), g.neg(y)));
  }

  lemma NegNeg<G(!new)>(g: Group<G>, x: G)
    requires IsAbelian(g)
    ensures g.neg(g.neg(x)) == x
  {
    hide IsAbelian;
    Inverse(g, x);
    InverseUnique(g, g.neg(x), x);
  }

  lemma TimesNeg<G(!new)>(g: Group<G>, n: int, x: G)
    requires IsAbelian(g)
    ensures Times(g, -n, x) == g.neg(Times(g, n, x))
  {
    hide IsAbelian;
    if n == 0 {
      ZeroRight(g, g.zero);
      InverseUnique(g, g.zero, g.zero);
    } else if n < 0 {
      NegNeg(g, Times(g, -n, x));
    }
  }

  lemma TimesSucc<G(!new)>(g: Group<G>, n: int, x: G)
    requires IsAbelian(g)
    ensures Times(g, n + 1, x) == g.add(Times(g, n, x), x)
  {
    hide IsAbelian;
    if n < 0 {
      // [n]x = -([-n-1]x + x)
      assert Times(g, -n, x) == g.add(Times(g, -n - 1, x), x);
      var m := Times(g, -n - 1, x);
      NegSum(g, m, x);
      Assoc(g, g.neg(m), g.neg(x), x);
      Inverse(g, x);
      ZeroRight(g, g.neg(m));
      TimesNeg(g, -n - 1, x);
    }
  }

  lemma TimesPred<G(!new)>(g: Group<G>, n: int, x: G)
    requires IsAbelian(g)
    ensures Times(g, n - 1, x) == g.add(Times(g, n, x), g.neg(x))
  {
    hide IsAbelian, Times;
    TimesSucc(g, n - 1, x);
    Assoc(g, Times(g, n - 1, x), x, g.neg(x));
    Inverse(g, x);
    ZeroRight(g, Times(g, n - 1, x));
  }

  /** [m + n]x == [m]x + [n]x */
  lemma {:induction false} TimesAdd<G(!new)>(g: Group<G>, m: int, n: int, x: G)
    requires IsAbelian(g)
    ensures Times(g, m + n, x) == g.add(Times(g, m, x), Times(g, n, x))
    decreases if n < 0 then -n else n
  {
    hide IsAbelian, Times;
    if n == 0 {
      TimesZero(g, x);
      ZeroRight(g, Times(g, m, x));
    } else if n > 0 {
      TimesAdd(g, m, n - 1, x);
      TimesSucc(g, m + n - 1, x);
      TimesSucc(g, n - 1, x);
      Assoc(g, Times(g, m, x), Times(g, n - 1, x), x);
    } else {
      TimesAdd(g, m, n + 1, x);
      TimesPred(g, m + n + 1, x);
      TimesPred(g, n + 1, x);
      Assoc(g, Times(g, m, x), Times(g, n + 1, x), g.neg(x));
    }
  }

  lemma TimesZero<G>(g: Group<G>, x: G)
    ensures Times(g, 0, x) == g.zero
  {
  }

  lemma TimesOne<G(!new)>(g: Group<G>, x: G)
    requires IsAbelian(g)
    ensures Times(g, 1, x) == x
  {
    hide IsAbelian;
    ZeroRight(g, x);
    assert Times(g, 0, x) == g.zero;
  }

  /** Multiples of the order are zero. */
  lemma {:induction false} TimesOrder<G(!new)>(g: Group<G>, order: int, k: nat, x: G)
    requires IsAbelian(g) && Times(g, order, x) == g.zero
    ensures Times(g, order * k, x) == g.zero
  {
    hide IsAbelian, Times;
    if k == 0 {
      TimesZero(g, x);
    } else {
      TimesOrder(g, order, k - 1, x);
      MulDistr(order, k - 1, 1);
      TimesAdd(g, order * (k - 1), order, x);
      ZeroRight(g, g.zero);
    }
  }

  /** Two multiples whose difference is a multiple of the order are equal. */
  lemma TimesCong<G(!new)>(g: Group<G>, order: int, n: int, k: int, x: G)
    requires IsAbelian(g) && Times(g, order, x) == g.zero
    ensures Times(g, n + order * k, x) == Times(g, n, x)
  {
    hide IsAbelian, Times;
    TimesAdd(g, n, order * k, x);
    ZeroRight(g, Times(g, n, x));
    if k >= 0 {
      TimesOrder(g, order, k, x);
    } else {
      TimesOrder(g, order, -k, x);
      TimesNeg(g, order * -k, x);
      assert order * k == -(order * -k);
      ZeroRight(g, g.zero);
      InverseUnique(g, g.zero, g.zero);
    }
  }

  /** [a]b + [c]d, the form that ladders keep their sum in. */
  ghost function Combination<G>(g: Group<G>, a: int, b: G, c: int, d: G): G {
    g.add(Times(g, a, b), Times(g, c, d))
  }

  /** `ge_double` */
  lemma CombinationDouble<G(!new)>(g: Group<G>, a: int, b: G, c: int, d: G)
    requires IsAbelian(g)
    ensures g.add(Combination(g, a, b, c, d), Combination(g, a, b, c, d)) == Combination(g, 2 * a, b, 2 * c, d)
  {
    hide IsAbelian, Times;
    Interchange(g, Times(g, a, b), Times(g, c, d), Times(g, a, b), Times(g, c, d));
    TimesAdd(g, a, a, b);
    TimesAdd(g, c, c, d);
    assert a + a == 2 * a && c + c == 2 * c;
  }

  lemma CombinationAddFirst<G(!new)>(g: Group<G>, a: int, b: G, c: int, d: G, k: int)
    requires IsAbelian(g)
    ensures g.add(Combination(g, a, b, c, d), Times(g, k, b)) == Combination(g, a + k, b, c, d)
  {
    hide IsAbelian, Times;
    var x, y, z := Times(g, a, b), Times(g, c, d), Times(g, k, b);
    Assoc(g, x, y, z);
    Comm(g, y, z);
    Assoc(g, x, z, y);
    TimesAdd(g, a, k, b);
  }

  lemma CombinationAddSecond<G(!new)>(g: Group<G>, a: int, b: G, c: int, d: G, k: int)
    requires IsAbelian(g)
    ensures g.add(Combination(g, a, b, c, d), Times(g, k, d)) == Combination(g, a, b, c + k, d)
  {
    hide IsAbelian, Times;
    Assoc(g, Times(g, a, b), Times(g, c, d), Times(g, k, d));
    TimesAdd(g, c, k, d);
  }
}
