/**
 Polynomials as coefficient sequences, constant term first, over any field. `Eval` is the Horner
 fold both `eval` (crates/custody/src/shamir.rs) and `gf_eval` (crates/kst/src/shamir256.rs) run.
 */
module Polynomials {
  import opened Fields
  import opened Sequences

  ghost predicate In<T>(F: Field<T>, s: seq<T>)
  {
    forall i :: 0 <= i < |s| ==> F.has(s[i])
  }

  function Eval<T>(F: Field<T>, p: seq<T>, x: T): T
  {
    if p == [] then F.zero else F.add(F.mul(Eval(F, p[1..], x), x), p[0])
  }

  lemma EvalHas<T(!new)>(F: Field<T>, p: seq<T>, x: T)
    requires Lawful(F)
    ensures F.has(Eval(F, p, x))
  {
    hide Lawful;
    Has(F, x, x);
    if p != [] { Has(F, F.mul(Eval(F, p[1..], x), x), p[0]); }
  }

  /** At zero a polynomial is its constant term. */
  lemma EvalZero<T(!new)>(F: Field<T>, p: seq<T>)
    requires Lawful(F) && p != [] && F.has(p[0])
    ensures Eval(F, p, F.zero) == p[0]
  {
    hide Lawful;
    MulZero(F, Eval(F, p[1..], F.zero));
    AddComm(F, F.zero, p[0]);
    Unit(F, p[0]);
  }

  // ------------------------------------------------------------- division by X - r

  /** The quotient of p by X - r. */
  ghost function Divide<T>(F: Field<T>, p: seq<T>, r: T): (h: seq<T>)
    ensures |h| == if p == [] then 0 else |p| - 1
  {
    if |p| <= 1 then [] else [Eval(F, p[1..], r)] + Divide(F, p[1..], r)
  }

  lemma {:induction false} DivideIn<T(!new)>(F: Field<T>, p: seq<T>, r: T)
    requires Lawful(F)
    ensures In(F, Divide(F, p, r))
  {
    hide Lawful;
    if |p| > 1 {
      EvalHas(F, p[1..], r);
      DivideIn(F, p[1..], r);
    }
  }

  /** p(x) = p(r) + (x - r) h(x). */
  lemma {:induction false} DivideEval<T(!new)>(F: Field<T>, p: seq<T>, r: T, x: T)
    requires Lawful(F) && p != [] && In(F, p) && F.has(r) && F.has(x)
    ensures Eval(F, p, x) == F.add(F.mul(F.Sub(x, r), Eval(F, Divide(F, p, r), x)), Eval(F, p, r))
  {
    hide Lawful;
    var d := F.Sub(x, r);
    var t := p[1..];
    var tr, tx := Eval(F, t, r), Eval(F, t, x);
    EvalHas(F, p, r);
    EvalHas(F, p, x);
    if |p| == 1 {
      MulZero(F, d);
      MulZero(F, r);
      MulZero(F, x);
      AddComm(F, F.zero, Eval(F, p, r));
      Unit(F, Eval(F, p, r));
    } else {
      var h := Divide(F, t, r);
      var hx := Eval(F, h, x);
      assert Divide(F, p, r)[1..] == h;
      DivideEval(F, t, r, x);
      calc {
        Eval(F, p, x);
        F.add(F.mul(F.add(F.mul(d, hx), tr), x), p[0]);
        { DistribRight(F, F.mul(d, hx), tr, x); MulAssoc(F, d, hx, x); }
        F.add(F.add(F.mul(d, F.mul(hx, x)), F.mul(tr, x)), p[0]);
        { SubAdd(F, x, r); Distrib(F, tr, d, r); MulComm(F, tr, d); }
        F.add(F.add(F.mul(d, F.mul(hx, x)), F.add(F.mul(d, tr), F.mul(tr, r))), p[0]);
        { AddAssoc(F, F.mul(d, F.mul(hx, x)), F.mul(d, tr), F.mul(tr, r));
          Distrib(F, d, F.mul(hx, x), tr); }
        F.add(F.add(F.mul(d, F.add(F.mul(hx, x), tr)), F.mul(tr, r)), p[0]);
        { AddAssoc(F, F.mul(d, F.add(F.mul(hx, x), tr)), F.mul(tr, r), p[0]); }
        F.add(F.mul(d, Eval(F, Divide(F, p, r), x)), Eval(F, p, r));
      }
    }
  }

  // ---------------------------------------------------------------- root counting

  ghost predicate AllZero<T>(F: Field<T>, p: seq<T>)
  {
    forall i :: 0 <= i < |p| ==> p[i] == F.zero
  }

  lemma {:induction false} ZeroQuotient<T(!new)>(F: Field<T>, p: seq<T>, r: T)
    requires Lawful(F) && p != [] && In(F, p) && AllZero(F, Divide(F, p, r)) && Eval(F, p, r) == F.zero
    ensures AllZero(F, p)
  {
    hide Lawful;
    var t := p[1..];
    if |p| > 1 {
      assert Divide(F, p, r)[0] == Eval(F, t, r);
      assert Divide(F, p, r)[1..] == Divide(F, t, r);
      ZeroQuotient(F, t, r);
      assert forall i :: 1 <= i < |p| ==> p[i] == t[i - 1];
    }
    MulZero(F, r);
    AddComm(F, F.zero, p[0]);
    Unit(F, p[0]);
  }

  /** A polynomial with at least as many distinct roots as coefficients is zero. */
  lemma {:induction false} RootsForceZero<T(!new)>(F: Field<T>, p: seq<T>, xs: seq<T>)
    requires Lawful(F) && In(F, p) && In(F, xs) && Distinct(xs) && |p| <= |xs|
    requires forall i :: 0 <= i < |xs| ==> Eval(F, p, xs[i]) == F.zero
    ensures AllZero(F, p)
    decreases |p|
  {
    hide Lawful;
    if p != [] {
      var r, ys := xs[0], xs[1..];
      var h := Divide(F, p, r);
      DivideIn(F, p, r);
      forall i | 0 <= i < |ys|
        ensures Eval(F, h, ys[i]) == F.zero
      {
        var x := ys[i];
        assert x == xs[i + 1];
        var d := F.Sub(x, r);
        DivideEval(F, p, r, x);
        EvalHas(F, h, x);
        Has(F, x, F.neg(r));
        Has(F, d, Eval(F, h, x));
        Unit(F, F.mul(d, Eval(F, h, x)));
        SubSelf(F, x, r);
        MulNonZero(F, d, Eval(F, h, x));
      }
      RootsForceZero(F, h, ys);
      ZeroQuotient(F, p, r);
    }
  }

  // -------------------------------------------------------- polynomial arithmetic

  ghost function Combine<T>(F: Field<T>, p: seq<T>, c: T, w: seq<T>): (r: seq<T>)
    requires |p| == |w|
    ensures |r| == |p|
  {
    seq(|p|, i requires 0 <= i < |p| => F.add(p[i], F.mul(c, w[i])))
  }

  lemma CombineIn<T(!new)>(F: Field<T>, p: seq<T>, c: T, w: seq<T>)
    requires Lawful(F) && |p| == |w|
    ensures In(F, Combine(F, p, c, w))
  {
    hide Lawful;
    forall i | 0 <= i < |p|
      ensures F.has(Combine(F, p, c, w)[i])
    {
      Has(F, p[i], F.mul(c, w[i]));
    }
  }

  /** (p + c w)(x) = p(x) + c w(x). */
  lemma {:induction false} CombineEval<T(!new)>(F: Field<T>, p: seq<T>, c: T, w: seq<T>, x: T)
    requires Lawful(F) && |p| == |w|
    ensures Eval(F, Combine(F, p, c, w), x) == F.add(Eval(F, p, x), F.mul(c, Eval(F, w, x)))
  {
    hide Lawful;
    if p == [] {
      MulZero(F, c);
      Has(F, c, c);
      Unit(F, F.zero);
    } else {
      var p', w' := Eval(F, p[1..], x), Eval(F, w[1..], x);
      assert Combine(F, p, c, w)[1..] == Combine(F, p[1..], c, w[1..]);
      CombineEval(F, p[1..], c, w[1..], x);
      calc {
        Eval(F, Combine(F, p, c, w), x);
        F.add(F.mul(F.add(p', F.mul(c, w')), x), F.add(p[0], F.mul(c, w[0])));
        { DistribRight(F, p', F.mul(c, w'), x); MulAssoc(F, c, w', x); }
        F.add(F.add(F.mul(p', x), F.mul(c, F.mul(w', x))), F.add(p[0], F.mul(c, w[0])));
        { AddSwap(F, F.mul(p', x), F.mul(c, F.mul(w', x)), p[0], F.mul(c, w[0])); }
        F.add(F.add(F.mul(p', x), p[0]), F.add(F.mul(c, F.mul(w', x)), F.mul(c, w[0])));
        { Distrib(F, c, F.mul(w', x), w[0]); }
        F.add(Eval(F, p, x), F.mul(c, Eval(F, w, x)));
      }
    }
  }

  lemma {:induction false} PadEval<T(!new)>(F: Field<T>, p: seq<T>, x: T)
    requires Lawful(F)
    ensures Eval(F, p + [F.zero], x) == Eval(F, p, x)
  {
    hide Lawful;
    if p == [] {
      MulZero(F, x);
      Has(F, x, x);
      Unit(F, F.zero);
      assert [F.zero][1..] == [];
    } else {
      assert (p + [F.zero])[1..] == p[1..] + [F.zero];
      PadEval(F, p[1..], x);
    }
  }

  lemma ShiftEval<T(!new)>(F: Field<T>, p: seq<T>, x: T)
    requires Lawful(F)
    ensures Eval(F, [F.zero] + p, x) == F.mul(Eval(F, p, x), x)
  {
    hide Lawful;
    assert ([F.zero] + p)[1..] == p;
    Has(F, Eval(F, p, x), x);
    Unit(F, F.mul(Eval(F, p, x), x));
  }

  /** The product of the X - x over the points x. */
  ghost function Vanishing<T>(F: Field<T>, xs: seq<T>): (w: seq<T>)
    ensures |w| == |xs| + 1
  {
    if xs == [] then [F.one]
    else
      var v := Vanishing(F, xs[1..]);
      Combine(F, [F.zero] + v, F.neg(xs[0]), v + [F.zero])
  }

  /** Vanishing(xs)(x) = (x - xs[0]) Vanishing(xs[1..])(x). */
  lemma VanishingEval<T(!new)>(F: Field<T>, xs: seq<T>, x: T)
    requires Lawful(F) && xs != []
    ensures Eval(F, Vanishing(F, xs), x) == F.mul(F.Sub(x, xs[0]), Eval(F, Vanishing(F, xs[1..]), x))
  {
    hide Lawful;
    var v := Vanishing(F, xs[1..]);
    var e := Eval(F, v, x);
    CombineEval(F, [F.zero] + v, F.neg(xs[0]), v + [F.zero], x);
    ShiftEval(F, v, x);
    PadEval(F, v, x);
    MulComm(F, e, x);
    DistribRight(F, x, F.neg(xs[0]), e);
  }

  /** The vanishing polynomial vanishes exactly on its points. */
  lemma {:induction false} VanishingRoots<T(!new)>(F: Field<T>, xs: seq<T>, x: T)
    requires Lawful(F) && In(F, xs) && F.has(x)
    ensures Eval(F, Vanishing(F, xs), x) == F.zero <==> x in xs
  {
    hide Lawful;
    Has(F, x, x);
    if xs == [] {
      MulZero(F, x);
      AddComm(F, F.zero, F.one);
      Unit(F, F.one);
      assert Eval(F, [F.one][1..], x) == F.zero;
    } else {
      VanishingEval(F, xs, x);
      VanishingRoots(F, xs[1..], x);
      SubSelf(F, x, xs[0]);
      Has(F, x, F.neg(xs[0]));
      EvalHas(F, Vanishing(F, xs[1..]), x);
      MulNonZero(F, F.Sub(x, xs[0]), Eval(F, Vanishing(F, xs[1..]), x));
      assert x in xs <==> x == xs[0] || x in xs[1..];
    }
  }

  // ---------------------------------------------------------------- interpolation

  ghost predicate Fits<T>(F: Field<T>, p: seq<T>, xs: seq<T>, ys: seq<T>)
    requires |xs| == |ys|
  {
    |p| == |xs| && In(F, p) && forall i :: 0 <= i < |xs| ==> Eval(F, p, xs[i]) == ys[i]
  }

  /** The multiple of the vanishing polynomial that moves p's value at x to y. */
  ghost function Correction<T>(F: Field<T>, p: seq<T>, points: seq<T>, x: T, y: T): T
  {
    F.mul(F.Sub(y, Eval(F, p, x)), F.inv(Eval(F, Vanishing(F, points), x)))
  }

  /** Through distinct points there is a polynomial with as many coefficients as points. */
  lemma {:induction false} InterpolantExists<T(!new)>(F: Field<T>, xs: seq<T>, ys: seq<T>) returns (p: seq<T>)
    requires Lawful(F) && |xs| == |ys| && In(F, xs) && In(F, ys) && Distinct(xs)
    ensures Fits(F, p, xs, ys)
  {
    hide Lawful, Eval, Vanishing, Combine, Correction;
    if xs == [] {
      p := [];
    } else {
      var x, rest := xs[0], xs[1..];
      assert x !in rest;
      var p' := InterpolantExists(F, rest, ys[1..]);
      var c := Correction(F, p', rest, x, ys[0]);
      p := Combine(F, p' + [F.zero], c, Vanishing(F, rest));
      CombineIn(F, p' + [F.zero], c, Vanishing(F, rest));
      ReachesNewPoint(F, p', rest, x, ys[0]);
      forall i | 1 <= i < |xs|
        ensures Eval(F, p, xs[i]) == ys[i]
      {
        assert xs[i] == rest[i - 1];
        KeepsOldPoints(F, p', c, rest, xs[i]);
      }
    }
  }

  lemma ReachesNewPoint<T(!new)>(F: Field<T>, p: seq<T>, points: seq<T>, x: T, y: T)
    requires Lawful(F) && In(F, points) && |p| == |points| && F.has(x) && F.has(y) && x !in points
    ensures Eval(F, Combine(F, p + [F.zero], Correction(F, p, points, x, y), Vanishing(F, points)), x) == y
  {
    hide Lawful;
    var w, c := Vanishing(F, points), Correction(F, p, points, x, y);
    CombineEval(F, p + [F.zero], c, w, x);
    PadEval(F, p, x);
    VanishingRoots(F, points, x);
    EvalHas(F, w, x);
    EvalHas(F, p, x);
    Has(F, y, F.neg(Eval(F, p, x)));
    ScaleToGap(F, F.Sub(y, Eval(F, p, x)), Eval(F, w, x));
    SubAdd(F, y, Eval(F, p, x));
  }

  lemma KeepsOldPoints<T(!new)>(F: Field<T>, p: seq<T>, c: T, points: seq<T>, x: T)
    requires Lawful(F) && In(F, points) && |p| == |points| && x in points
    ensures Eval(F, Combine(F, p + [F.zero], c, Vanishing(F, points)), x) == Eval(F, p, x)
  {
    hide Lawful;
    CombineEval(F, p + [F.zero], c, Vanishing(F, points), x);
    PadEval(F, p, x);
    VanishingRoots(F, points, x);
    MulZero(F, c);
    EvalHas(F, p, x);
    Unit(F, Eval(F, p, x));
  }

  lemma ScaleToGap<T(!new)>(F: Field<T>, gap: T, w: T)
    requires Lawful(F) && F.has(gap) && F.has(w) && w != F.zero
    ensures F.mul(F.mul(gap, F.inv(w)), w) == gap
  {
    hide Lawful;
    MulAssoc(F, gap, F.inv(w), w);
    MulComm(F, F.inv(w), w);
    Unit(F, w);
    Unit(F, gap);
  }

  /** ... and only one. */
  lemma InterpolantUnique<T(!new)>(F: Field<T>, p: seq<T>, q: seq<T>, xs: seq<T>, ys: seq<T>)
    requires Lawful(F) && |xs| == |ys| && In(F, xs) && Distinct(xs)
    requires Fits(F, p, xs, ys) && Fits(F, q, xs, ys)
    ensures p == q
  {
    hide Lawful;
    var m := F.neg(F.one);
    var d := Combine(F, p, m, q);
    CombineIn(F, p, m, q);
    forall i | 0 <= i < |xs|
      ensures Eval(F, d, xs[i]) == F.zero
    {
      CombineEval(F, p, m, q, xs[i]);
      EvalHas(F, q, xs[i]);
      MinusOne(F, ys[i]);
      Unit(F, ys[i]);
    }
    RootsForceZero(F, d, xs);
    forall i | 0 <= i < |p|
      ensures p[i] == q[i]
    {
      assert d[i] == F.add(p[i], F.mul(m, q[i]));
      MinusOne(F, q[i]);
      SubSelf(F, p[i], q[i]);
    }
  }

  lemma MinusOne<T(!new)>(F: Field<T>, a: T)
    requires Lawful(F) && F.has(a)
    ensures F.mul(F.neg(F.one), a) == F.neg(a)
  {
    hide Lawful;
    NegMul(F, F.one, a);
    MulComm(F, F.one, a);
    Unit(F, a);
  }
}
