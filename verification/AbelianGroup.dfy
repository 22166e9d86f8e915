/** Abelian groups and integer multiples of their elements. */
module AbelianGroup {
  datatype Group<!P> = Group(zero: P, add: (P, P) -> P, neg: P -> P)

  // The laws are instantiated by hand, at the elements marked with these predicates.
  ghost predicate At<P>(x: P) { true }
  ghost predicate AtPair<P>(x: P, y: P) { true }
  ghost predicate AtTriple<P>(x: P, y: P, z: P) { true }

  ghost predicate IsAbelian<P(!new)>(g: Group<P>)
  {
    && (forall x {:trigger At(x)} :: At(x) ==> g.add(x, g.zero) == x && g.add(x, g.neg(x)) == g.zero)
    && (forall x, y {:trigger AtPair(x, y)} :: AtPair(x, y) ==> g.add(x, y) == g.add(y, x))
    && (forall x, y, z {:trigger AtTriple(x, y, z)} ::
          AtTriple(x, y, z) ==> g.add(g.add(x, y), z) == g.add(x, g.add(y, z)))
  }

  /** k times p. */
  ghost function Times<P>(g: Group<P>, k: int, p: P): P
    decreases if k < 0 then 1 - k else k
  {
    if k == 0 then g.zero
    else if k > 0 then g.add(Times(g, k - 1, p), p)
    else g.neg(Times(g, -k, p))
  }

  // ----- group algebra

  lemma Zero<P(!new)>(g: Group<P>, x: P)
    requires IsAbelian(g)
    ensures g.add(x, g.zero) == x && g.add(g.zero, x) == x && g.add(x, g.neg(x)) == g.zero
  {
    assert At(x) && AtPair(x, g.zero);
  }

  lemma Swap<P(!new)>(g: Group<P>, x: P, y: P)
    requires IsAbelian(g)
    ensures g.add(x, y) == g.add(y, x)
  {
    assert AtPair(x, y);
  }

  lemma Assoc<P(!new)>(g: Group<P>, x: P, y: P, z: P)
    requires IsAbelian(g)
    ensures g.add(g.add(x, y), z) == g.add(x, g.add(y, z))
  {
    assert AtTriple(x, y, z);
  }

  /** (x + y) + z = (x + z) + y */
  lemma SwapLast<P(!new)>(g: Group<P>, x: P, y: P, z: P)
    requires IsAbelian(g)
    ensures g.add(g.add(x, y), z) == g.add(g.add(x, z), y)
  {
    Assoc(g, x, y, z);
    Swap(g, y, z);
    Assoc(g, x, z, y);
  }

  /** (x + y) - y = x */
  lemma Cancel<P(!new)>(g: Group<P>, x: P, y: P)
    requires IsAbelian(g)
    ensures g.add(g.add(x, y), g.neg(y)) == x
    ensures g.add(g.add(x, g.neg(y)), y) == x
  {
    Assoc(g, x, y, g.neg(y));
    Assoc(g, x, g.neg(y), y);
    Swap(g, g.neg(y), y);
    Zero(g, y);
    Zero(g, x);
  }

  /** x + y = z determines x. */
  lemma Solve<P(!new)>(g: Group<P>, x: P, y: P, z: P)
    requires IsAbelian(g) && g.add(x, y) == z
    ensures x == g.add(z, g.neg(y))
  {
    Cancel(g, x, y);
  }

  // ----- multiples

  lemma {:induction false} TimesSucc<P(!new)>(g: Group<P>, k: int, p: P)
    requires IsAbelian(g)
    ensures Times(g, k + 1, p) == g.add(Times(g, k, p), p)
  {
    if k < 0 {
      // -(x + p) + p = -x
      var x := Times(g, -k - 1, p);
      var y := Times(g, -k, p);
      assert y == g.add(x, p);
      Zero(g, y);
      Assoc(g, x, p, g.neg(y));
      Swap(g, p, g.neg(y));
      Swap(g, x, g.add(g.neg(y), p));
      Solve(g, g.add(g.neg(y), p), x, g.zero);
      Zero(g, g.neg(x));
      assert k + 1 == 0 ==> x == g.zero;
      NegZero(g);
    }
  }

  lemma NegZero<P(!new)>(g: Group<P>)
    requires IsAbelian(g)
    ensures g.neg(g.zero) == g.zero
  {
    Zero(g, g.neg(g.zero));
    Zero(g, g.zero);
  }

  lemma {:induction false} TimesAddNat<P(!new)>(g: Group<P>, k: int, l: nat, p: P)
    requires IsAbelian(g)
    ensures Times(g, k + l, p) == g.add(Times(g, k, p), Times(g, l, p))
    decreases l
  {
    if l == 0 {
      Zero(g, Times(g, k, p));
    } else {
      TimesAddNat(g, k, l - 1, p);
      TimesSucc(g, k + l - 1, p);
      Assoc(g, Times(g, k, p), Times(g, l - 1, p), p);
    }
  }

  lemma TimesNeg<P(!new)>(g: Group<P>, k: int, p: P)
    requires IsAbelian(g)
    ensures Times(g, -k, p) == g.neg(Times(g, k, p))
  {
    var l := if k < 0 then -k else k;
    TimesAddNat(g, -l, l, p);
    Solve(g, Times(g, -l, p), Times(g, l, p), g.zero);
    Zero(g, g.neg(Times(g, l, p)));
    NegZero(g);
    NegNeg(g, Times(g, l, p));
  }

  lemma NegNeg<P(!new)>(g: Group<P>, x: P)
    requires IsAbelian(g)
    ensures g.neg(g.neg(x)) == x
  {
    Zero(g, x);
    Solve(g, x, g.neg(x), g.zero);
    Zero(g, g.neg(g.neg(x)));
  }

  lemma TimesAdd<P(!new)>(g: Group<P>, k: int, l: int, p: P)
    requires IsAbelian(g)
    ensures Times(g, k + l, p) == g.add(Times(g, k, p), Times(g, l, p))
  {
    if l >= 0 {
      TimesAddNat(g, k, l, p);
    } else {
      TimesAddNat(g, k + l, -l, p);
      Solve(g, Times(g, k + l, p), Times(g, -l, p), Times(g, k, p));
    }
  }

  lemma {:induction false} TimesZero<P(!new)>(g: Group<P>, k: int)
    requires IsAbelian(g)
    ensures Times(g, k, g.zero) == g.zero
    decreases if k < 0 then 1 - k else k
  {
    if k > 0 {
      TimesZero(g, k - 1);
      Zero(g, g.zero);
    } else if k < 0 {
      TimesZero(g, -k);
      NegZero(g);
    }
  }

  lemma {:induction false} TimesTimes<P(!new)>(g: Group<P>, k: int, l: int, p: P)
    requires IsAbelian(g)
    ensures Times(g, k, Times(g, l, p)) == Times(g, k * l, p)
    decreases if k < 0 then 1 - k else k
  {
    if k > 0 {
      TimesTimes(g, k - 1, l, p);
      TimesAdd(g, (k - 1) * l, l, p);
      assert (k - 1) * l + l == k * l;
    } else if k < 0 {
      TimesTimes(g, -k, l, p);
      TimesNeg(g, -k * l, p);
      assert -(-k * l) == k * l;
    }
  }

  /** A multiple of an order that kills p does not matter. */
  lemma Killed<P(!new)>(g: Group<P>, order: int, k: int, t: int, p: P)
    requires IsAbelian(g) && Times(g, order, p) == g.zero
    ensures Times(g, k + t * order, p) == Times(g, k, p)
  {
    TimesTimes(g, t, order, p);
    TimesZero(g, t);
    TimesAdd(g, k, t * order, p);
    Zero(g, Times(g, k, p));
  }
}
