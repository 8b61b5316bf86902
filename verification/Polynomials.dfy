/**
  Polynomials over GF(2^8): Horner evaluation, division by a linear factor,
  interpolation, and the value at zero that Combine computes.

  Coefficient lists start with the constant term.
  */
module Polynomials {
  import opened Gf256
  import opened GfTables
  import opened Collections

  function Eval(c: seq<Byte>, x: Byte): Byte {
    if |c| == 0 then ZERO else Add(c[0], Mul(x, Eval(c[1..], x)))
  }

  /** The quotient of c by (x - r), by synthetic division. */
  function Quot(c: seq<Byte>, r: Byte): seq<Byte> {
    if |c| <= 1 then [] else [Eval(c[1..], r)] + Quot(c[1..], r)
  }

  /** The polynomial with quotient g and remainder v at r: undoes Quot. */
  function Build(g: seq<Byte>, r: Byte, v: Byte): seq<Byte>
    decreases |g|
  {
    if |g| == 0 then [v] else [Add(v, Mul(r, g[0]))] + Build(g[1..], r, g[0])
  }

  lemma {:induction false} QuotLength(c: seq<Byte>, r: Byte)
    ensures |Quot(c, r)| == if |c| == 0 then 0 else |c| - 1
  {
    if |c| > 1 {
      QuotLength(c[1..], r);
    }
  }

  /** Division with remainder, evaluated: c(x) == c(r) + (x - r) * q(x). */
  lemma {:induction false} EvalQuot(c: seq<Byte>, r: Byte, x: Byte)
    ensures Eval(c, x) == Add(Eval(c, r), Mul(Add(x, r), Eval(Quot(c, r), x)))
  {
    hide Add, Mul;
    if |c| == 0 {
      MulZero(Add(x, r));
      AddZero(ZERO);
    } else {
      var t := c[1..];
      var e, q := Eval(t, r), Eval(Quot(t, r), x);
      EvalQuot(t, r, x);
      Distrib(x, e, Mul(Add(x, r), q));
      if |t| == 0 {
        MulZero(x);
        MulZero(r);
        MulZero(Add(x, r));
        AddZero(Add(c[0], ZERO));
      } else {
        assert Quot(c, r)[1..] == Quot(t, r);
        Distrib(Add(x, r), e, Mul(x, q));
        Distrib(e, x, r);
        MulComm(Add(x, r), Mul(x, q));
        MulAssoc(x, q, Add(x, r));
        MulComm(q, Add(x, r));
        Regroup(c[0], Mul(x, e), Mul(r, e), Mul(x, Mul(Add(x, r), q)));
      }
    }
  }

  lemma Regroup(f: Byte, a: Byte, b: Byte, d: Byte)
    ensures Add(f, Add(a, d)) == Add(Add(f, b), Add(Add(a, b), d))
  {}

  lemma {:induction false} QuotBuild(g: seq<Byte>, r: Byte, v: Byte)
    ensures |Build(g, r, v)| == |g| + 1
    ensures Eval(Build(g, r, v), r) == v && Quot(Build(g, r, v), r) == g
    decreases |g|
  {
    hide Add, Mul;
    if |g| == 0 {
      assert [v][1..] == [];
      MulZero(r);
      AddZero(v);
    } else {
      var f := Build(g, r, v);
      assert f[1..] == Build(g[1..], r, g[0]);
      QuotBuild(g[1..], r, g[0]);
      AddCancel(Mul(r, g[0]), v);
    }
  }

  lemma {:induction false} BuildQuot(c: seq<Byte>, r: Byte)
    requires |c| > 0
    ensures Build(Quot(c, r), r, Eval(c, r)) == c
  {
    hide Add, Mul;
    if |c| == 1 {
      assert c[1..] == [];
      MulZero(r);
      AddZero(c[0]);
    } else {
      BuildQuot(c[1..], r);
      QuotLength(c, r);
      assert Quot(c, r)[1..] == Quot(c[1..], r);
      AddCancel(Mul(r, Eval(c[1..], r)), c[0]);
    }
  }

  // ---------- Interpolation ----------

  ghost predicate Fits(c: seq<Byte>, xs: seq<Byte>, ys: seq<Byte>) {
    && |c| == |xs| == |ys|
    && forall i | 0 <= i < |xs| :: Eval(c, xs[i]) == ys[i]
  }

  lemma {:induction false} InterpolationExists(xs: seq<Byte>, ys: seq<Byte>) returns (c: seq<Byte>)
    requires Distinct(xs) && |xs| == |ys|
    ensures Fits(c, xs, ys)
    decreases |xs|
  {
    hide Add, Mul, Eval;
    if |xs| == 0 {
      c := [];
    } else {
      var n := |xs| - 1;
      var r, v := xs[n], ys[n];
      var slopes := seq(n, i requires 0 <= i < n => Mul(Add(ys[i], v), Inv(Add(xs[i], r))));
      var g := InterpolationExists(xs[..n], slopes);
      c := Build(g, r, v);
      QuotBuild(g, r, v);
      forall i | 0 <= i < n
        ensures Eval(c, xs[i]) == ys[i]
      {
        var d := Add(xs[i], r);
        AddCancel(xs[i], r);
        EvalQuot(c, r, xs[i]);
        assert Eval(g, xs[..n][i]) == slopes[i];
        MulComm(Add(ys[i], v), Inv(d));
        MulAssoc(d, Inv(d), Add(ys[i], v));
        MulOne(Add(ys[i], v));
        AddComm(ys[i], v);
        AddCancel(v, ys[i]);
      }
    }
  }

  lemma {:induction false} InterpolationUnique(xs: seq<Byte>, ys: seq<Byte>, c: seq<Byte>, d: seq<Byte>)
    requires Distinct(xs) && Fits(c, xs, ys) && Fits(d, xs, ys)
    ensures c == d
    decreases |xs|
  {
    hide Add, Mul, Eval;
    if |xs| > 0 {
      var n := |xs| - 1;
      var r := xs[n];
      var p, q := Quot(c, r), Quot(d, r);
      QuotLength(c, r);
      QuotLength(d, r);
      var values := seq(n, i requires 0 <= i < n => Eval(p, xs[i]));
      forall i | 0 <= i < n
        ensures Eval(q, xs[i]) == values[i]
      {
        var x := xs[i];
        EvalQuot(c, r, x);
        EvalQuot(d, r, x);
        AddCancel(x, r);
        AddCancel(ys[n], Mul(Add(x, r), Eval(p, x)));
        AddCancel(ys[n], Mul(Add(x, r), Eval(q, x)));
        MulCancel(Add(x, r), Eval(p, x), Eval(q, x));
      }
      InterpolationUnique(xs[..n], values, p, q);
      BuildQuot(c, r);
      BuildQuot(d, r);
    }
  }

  // ---------- The interpolated value at zero ----------

  function Others(xs: seq<Byte>, i: nat): seq<Byte>
    requires i < |xs|
  {
    xs[..i] + xs[i + 1..]
  }

  /** Product over s of s[j] / (x - s[j]): the weight of the share at x. */
  ghost function Weight(x: Byte, s: seq<Byte>): Byte
    decreases |s|
  {
    if |s| == 0 then ONE else Mul(Weight(x, s[..|s| - 1]), Mul(s[|s| - 1], Inv(Add(x, s[|s| - 1]))))
  }

  ghost function Weights(xs: seq<Byte>): (ws: seq<Byte>)
    ensures |ws| == |xs|
  {
    seq(|xs|, i requires 0 <= i < |xs| => Weight(xs[i], Others(xs, i)))
  }

  function Dot(ys: seq<Byte>, ws: seq<Byte>): Byte
    requires |ys| == |ws|
  {
    if |ys| == 0 then ZERO
    else Add(Dot(ys[..|ys| - 1], ws[..|ys| - 1]), Mul(ys[|ys| - 1], ws[|ys| - 1]))
  }

  ghost function Values(c: seq<Byte>, xs: seq<Byte>): (ys: seq<Byte>)
    ensures |ys| == |xs| && forall i | 0 <= i < |xs| :: ys[i] == Eval(c, xs[i])
  {
    seq(|xs|, i requires 0 <= i < |xs| => Eval(c, xs[i]))
  }

  /** Each value times the distance of its point from r. */
  ghost function Scaled(ys: seq<Byte>, xs: seq<Byte>, r: Byte): (zs: seq<Byte>)
    requires |ys| == |xs|
    ensures |zs| == |xs| && forall i | 0 <= i < |xs| :: zs[i] == Mul(Add(xs[i], r), ys[i])
  {
    seq(|xs|, i requires 0 <= i < |xs| => Mul(Add(xs[i], r), ys[i]))
  }

  lemma {:induction false} WeightFirst(x: Byte, r: Byte, s: seq<Byte>)
    ensures Weight(x, [r] + s) == Mul(Weight(x, s), Mul(r, Inv(Add(x, r))))
    decreases |s|
  {
    hide Add, Mul, Inv;
    var k := Mul(r, Inv(Add(x, r)));
    if |s| == 0 {
      assert [r] + s == [r] && [r][..0] == [];
    } else {
      var n := |s| - 1;
      var l := Mul(s[n], Inv(Add(x, s[n])));
      assert ([r] + s)[..|s|] == [r] + s[..n];
      WeightFirst(x, r, s[..n]);
      MulAssoc(Weight(x, s[..n]), k, l);
      MulComm(k, l);
      MulAssoc(Weight(x, s[..n]), l, k);
    }
  }

  /** Dropping the point r from the weight of x costs the factor (x - r) / r. */
  lemma WeightDrop(x: Byte, r: Byte, y: Byte, w: Byte)
    requires x != r
    ensures Mul(Mul(Add(x, r), y), Mul(w, Mul(r, Inv(Add(x, r))))) == Mul(r, Mul(y, w))
  {
    hide Add, Mul, Inv;
    var d := Add(x, r);
    AddCancel(x, r);
    assert Mul(d, Inv(d)) == ONE;
    calc {
      Mul(Mul(d, y), Mul(w, Mul(r, Inv(d))));
    ==  { MulComm(w, Mul(r, Inv(d))); MulComm(r, Inv(d)); MulAssoc(Inv(d), r, w); }
      Mul(Mul(d, y), Mul(Inv(d), Mul(r, w)));
    ==  { MulComm(d, y); MulAssoc(y, d, Mul(Inv(d), Mul(r, w))); MulAssoc(d, Inv(d), Mul(r, w)); }
      Mul(y, Mul(ONE, Mul(r, w)));
    ==  { MulOne(Mul(r, w)); MulComm(r, w); MulAssoc(y, w, r); MulComm(Mul(y, w), r); }
      Mul(r, Mul(y, w));
    }
  }

  lemma {:induction false} DotScale(a: seq<Byte>, u: seq<Byte>, k: Byte, b: seq<Byte>, v: seq<Byte>)
    requires |a| == |u| == |b| == |v|
    requires forall i | 0 <= i < |a| :: Mul(a[i], u[i]) == Mul(k, Mul(b[i], v[i]))
    ensures Dot(a, u) == Mul(k, Dot(b, v))
    decreases |a|
  {
    hide Add, Mul;
    if |a| == 0 {
      MulZero(k);
    } else {
      var n := |a| - 1;
      DotScale(a[..n], u[..n], k, b[..n], v[..n]);
      Distrib(k, Dot(b[..n], v[..n]), Mul(b[n], v[n]));
    }
  }

  lemma {:induction false} DotLinear(ys: seq<Byte>, k: Byte, a: seq<Byte>, zs: seq<Byte>, w: seq<Byte>)
    requires |ys| == |a| == |zs| == |w|
    requires forall i | 0 <= i < |ys| :: ys[i] == Add(Mul(k, a[i]), zs[i])
    ensures Dot(ys, w) == Add(Mul(k, Dot(a, w)), Dot(zs, w))
    decreases |ys|
  {
    hide Add, Mul;
    if |ys| == 0 {
      MulZero(k);
      AddZero(ZERO);
    } else {
      var n := |ys| - 1;
      DotLinear(ys[..n], k, a[..n], zs[..n], w[..n]);
      Distrib(w[n], Mul(k, a[n]), zs[n]);
      MulAssoc(k, a[n], w[n]);
      Distrib(k, Dot(a[..n], w[..n]), Mul(a[n], w[n]));
      AddSwap(Mul(k, Dot(a[..n], w[..n])), Dot(zs[..n], w[..n]), Mul(k, Mul(a[n], w[n])), Mul(zs[n], w[n]));
    }
  }

  lemma {:induction false} DotFirst(ys: seq<Byte>, ws: seq<Byte>)
    requires |ys| == |ws| > 0
    ensures Dot(ys, ws) == Add(Mul(ys[0], ws[0]), Dot(ys[1..], ws[1..]))
    decreases |ys|
  {
    hide Add, Mul;
    var n := |ys| - 1;
    var first := Mul(ys[0], ws[0]);
    if n == 0 {
      AddComm(ZERO, first);
    } else {
      DotFirst(ys[..n], ws[..n]);
      assert ys[..n][1..] == ys[1..][..n - 1] && ws[..n][1..] == ws[1..][..n - 1];
      AddAssoc(first, Dot(ys[..n][1..], ws[..n][1..]), Mul(ys[n], ws[n]));
    }
  }

  /** Scaling by the distance to the last point drops that point. */
  lemma DropLast(ys: seq<Byte>, xs: seq<Byte>)
    requires Distinct(xs) && |ys| == |xs| > 0
    ensures var n := |xs| - 1;
            Dot(Scaled(ys, xs, xs[n]), Weights(xs)) == Mul(xs[n], Dot(ys[..n], Weights(xs[..n])))
  {
    hide Add, Mul, Inv, Weight, Dot;
    var n := |xs| - 1;
    var r, zs, ws, rest := xs[n], Scaled(ys, xs, xs[n]), Weights(xs), Weights(xs[..n]);
    forall i | 0 <= i < n
      ensures Mul(zs[..n][i], ws[..n][i]) == Mul(r, Mul(ys[..n][i], rest[i]))
    {
      assert Others(xs, i) == Others(xs[..n], i) + [r];
      WeightLast(xs[i], r, Others(xs[..n], i));
      WeightDrop(xs[i], r, ys[i], rest[i]);
    }
    DotScale(zs[..n], ws[..n], r, ys[..n], rest);
    DotUnfold(zs, ws);
    AddSelf(r);
    MulZero(ys[n]);
    MulZero(ws[n]);
    AddZero(Dot(zs[..n], ws[..n]));
  }

  /** Scaling by the distance to the first point drops that point. */
  lemma DropFirst(ys: seq<Byte>, xs: seq<Byte>)
    requires Distinct(xs) && |ys| == |xs| > 0
    ensures Dot(Scaled(ys, xs, xs[0]), Weights(xs)) == Mul(xs[0], Dot(ys[1..], Weights(xs[1..])))
  {
    hide Add, Mul, Inv, Weight, Dot;
    var r, zs, ws, rest := xs[0], Scaled(ys, xs, xs[0]), Weights(xs), Weights(xs[1..]);
    forall i | 0 <= i < |rest|
      ensures Mul(zs[1..][i], ws[1..][i]) == Mul(r, Mul(ys[1..][i], rest[i]))
    {
      assert Others(xs, i + 1) == [r] + Others(xs[1..], i);
      WeightFirst(xs[i + 1], r, Others(xs[1..], i));
      WeightDrop(xs[i + 1], r, ys[i + 1], rest[i]);
    }
    DotScale(zs[1..], ws[1..], r, ys[1..], rest);
    DotFirst(zs, ws);
    AddSelf(r);
    MulZero(ys[0]);
    MulZero(ws[0]);
    AddZero(Dot(zs[1..], ws[1..]));
  }

  lemma WeightLast(x: Byte, r: Byte, s: seq<Byte>)
    ensures Weight(x, s + [r]) == Mul(Weight(x, s), Mul(r, Inv(Add(x, r))))
  {
    hide Add, Mul, Inv;
    assert (s + [r])[..|s|] == s;
  }

  lemma DotUnfold(ys: seq<Byte>, ws: seq<Byte>)
    requires |ys| == |ws| > 0
    ensures var n := |ys| - 1; Dot(ys, ws) == Add(Dot(ys[..n], ws[..n]), Mul(ys[n], ws[n]))
  {}

  /** Neville's recursion: the two one-point-smaller interpolations, combined. */
  lemma Neville(ys: seq<Byte>, xs: seq<Byte>)
    requires Distinct(xs) && |ys| == |xs| > 1
    ensures var n := |xs| - 1;
            Mul(xs[n], Dot(ys[..n], Weights(xs[..n]))) ==
            Add(Mul(Add(xs[0], xs[n]), Dot(ys, Weights(xs))), Mul(xs[0], Dot(ys[1..], Weights(xs[1..]))))
  {
    hide Add, Mul, Weights, Dot;
    var n := |xs| - 1;
    var last, first := Scaled(ys, xs, xs[n]), Scaled(ys, xs, xs[0]);
    forall i | 0 <= i < |ys|
      ensures last[i] == Add(Mul(Add(xs[0], xs[n]), ys[i]), first[i])
    {
      Distrib(ys[i], Add(xs[0], xs[n]), Add(xs[i], xs[0]));
      Telescope(xs[0], xs[n], xs[i]);
    }
    DotLinear(last, Add(xs[0], xs[n]), ys, first, Weights(xs));
    DropLast(ys, xs);
    DropFirst(ys, xs);
  }

  lemma Telescope(a: Byte, b: Byte, c: Byte)
    ensures Add(Add(a, b), Add(c, a)) == Add(c, b)
  {}

  ghost function Ones(n: nat): seq<Byte> {
    seq(n, _ => ONE)
  }

  /** The weights of distinct points sum to one. */
  lemma {:induction false} WeightsSumToOne(xs: seq<Byte>)
    requires Distinct(xs) && |xs| > 0
    ensures Dot(Ones(|xs|), Weights(xs)) == ONE
    decreases |xs|
  {
    hide Add, Mul, Weights, Dot;
    var n := |xs| - 1;
    if n == 0 {
      OneWeight(xs);
    } else {
      var ones := Ones(|xs|);
      assert ones[..n] == Ones(n) == ones[1..];
      WeightsSumToOne(xs[..n]);
      WeightsSumToOne(xs[1..]);
      Neville(ones, xs);
      var d, sum := Add(xs[0], xs[n]), Dot(ones, Weights(xs));
      MulOne(xs[n]);
      MulOne(xs[0]);
      MulOne(d);
      AddCancel(xs[0], xs[n]);
      AddCancel(xs[0], Mul(d, sum));
      AddComm(xs[n], xs[0]);
      MulCancel(d, sum, ONE);
    }
  }

  lemma OneWeight(xs: seq<Byte>)
    requires |xs| == 1
    ensures Dot(Ones(1), Weights(xs)) == ONE
  {
    hide Add, Mul;
    assert Others(xs, 0) == [];
    MulOne(ONE);
    AddZero(ONE);
  }

  /** Lagrange at zero: enough distinct points recover the constant term. */
  lemma {:induction false} LagrangeAtZero(c: seq<Byte>, xs: seq<Byte>)
    requires Distinct(xs) && 0 <= |c| <= |xs|
    ensures Dot(Values(c, xs), Weights(xs)) == Eval(c, ZERO)
    decreases |xs|
  {
    hide Add, Mul, Weights, Dot, Eval;
    if |xs| == 0 {
      EmptySums();
      assert c == [] && Values(c, xs) == [] && Weights(xs) == [];
    } else {
      var n := |xs| - 1;
      var r := xs[n];
      var g := Quot(c, r);
      var ones, ys, init := Ones(|xs|), Values(c, xs), xs[..n];
      QuotLength(c, r);
      var gs := Values(g, xs);
      forall i | 0 <= i < |xs|
        ensures ys[i] == Add(Mul(Eval(c, r), ones[i]), Scaled(gs, xs, r)[i])
      {
        EvalQuot(c, r, xs[i]);
        MulOne(Eval(c, r));
      }
      DotLinear(ys, Eval(c, r), ones, Scaled(gs, xs, r), Weights(xs));
      WeightsSumToOne(xs);
      MulOne(Eval(c, r));
      DropLast(gs, xs);
      LagrangeAtZero(g, init);
      assert gs[..n] == Values(g, init);
      EvalQuot(c, r, ZERO);
      AddZero(r);
    }
  }

  lemma EmptySums()
    ensures Dot([], []) == ZERO && forall x :: Eval([], x) == ZERO
  {}
}
