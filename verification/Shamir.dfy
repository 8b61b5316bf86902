/**
  Secret sharing (internal/seal/shamir.go): Split evaluates one random
  polynomial per secret byte, Combine interpolates each at zero.

  A share is [x] + ys. Random coefficients are a parameter: draw(idx) is what
  the random source returns for secret byte idx, or None when it fails.
  */
module Shamir {
  import opened Gf256
  import opened GfTables
  import opened Polynomials
  import opened Options
  import opened Collections

  type Share = seq<Byte>

  datatype SplitError = BadParts | BadThreshold | EmptySecret | RandomFailed

  datatype CombineError = TooFewShares | ShareTooShort | LengthMismatch | ZeroX | DuplicateX

  // ---------- Splitting ----------

  function Polynomial(secret: seq<Byte>, coefs: seq<seq<Byte>>, idx: nat): seq<Byte>
    requires idx < |secret| == |coefs|
  {
    [secret[idx]] + coefs[idx]
  }

  /** The share at x of the given secret and coefficients. */
  function ShareAt(secret: seq<Byte>, coefs: seq<seq<Byte>>, x: Byte): (s: Share)
    requires |secret| == |coefs|
    ensures |s| == 1 + |secret|
  {
    [x] + seq(|secret|, idx requires 0 <= idx < |secret| => Eval(Polynomial(secret, coefs, idx), x))
  }

  function SharesOf(secret: seq<Byte>, coefs: seq<seq<Byte>>, parts: nat): (r: seq<Share>)
    requires |secret| == |coefs| && parts < 256
    ensures |r| == parts
  {
    seq(parts, i requires 0 <= i < parts => ShareAt(secret, coefs, ToByte(i + 1)))
  }

  /** gfEval: Horner from the highest coefficient down. */
  method GfEval(t: Tables, x: Byte, coef: seq<Byte>) returns (result: Byte)
    requires t.Valid()
    ensures result == Eval(coef, x)
  {
    hide Mul, Add;
    result := ZERO;
    var i := |coef|;
    while i > 0
      invariant 0 <= i <= |coef|
      invariant result == Eval(coef[i..], x)
    {
      i := i - 1;
      var scaled := t.GfMul(result, x);
      MulComm(result, x);
      AddComm(scaled, coef[i]);
      assert coef[i..][1..] == coef[i + 1..];
      result := Add(scaled, coef[i]);
    }
    assert coef[0..] == coef;
  }

  method Split(t: Tables, secret: seq<Byte>, parts: int, threshold: int, draw: nat -> Option<seq<Byte>>)
    returns (r: Result<seq<Share>, SplitError>)
    requires t.Valid()
    requires forall i: nat :: draw(i).Some? ==> |draw(i).value| == threshold - 1
    ensures r.Ok? <==> 2 <= parts <= 255 && 2 <= threshold <= parts && |secret| > 0 &&
                       forall i: nat | i < |secret| :: draw(i).Some?
    ensures r.Ok? ==>
              r.value == SharesOf(secret, seq(|secret|, i requires 0 <= i < |secret| => draw(i).value), parts)
    ensures r.Ok? ==>
              && |r.value| == parts
              && forall i | 0 <= i < parts :: |r.value[i]| == 1 + |secret| && r.value[i][0] == ToByte(i + 1)
  {
    if parts < 2 || parts > 255 {
      return Err(BadParts);
    }
    if threshold < 2 || threshold > parts {
      return Err(BadThreshold);
    }
    if |secret| == 0 {
      return Err(EmptySecret);
    }
    hide Eval, ToByte;
    var len := |secret|;
    var shares := seq(parts, i requires 0 <= i < parts => [ToByte(i + 1)] + seq(len, _ => ZERO));
    var coefs: seq<seq<Byte>> := [];
    var idx := 0;
    while idx < len
      invariant 0 <= idx <= len && |shares| == parts && |coefs| == idx
      invariant forall i: nat | i < idx :: draw(i).Some? && coefs[i] == draw(i).value
      invariant Filled(shares, secret, coefs)
    {
      var rand := draw(idx);
      if rand.None? {
        return Err(RandomFailed);
      }
      coefs := coefs + [rand.value];
      shares := FillColumn(t, shares, [secret[idx]] + rand.value, idx, len);
      idx := idx + 1;
    }
    FilledIsShares(shares, secret, coefs);
    assert coefs == seq(len, i requires 0 <= i < len => draw(i).value);
    r := Ok(shares);
  }

  /** The byte positions done so far hold their polynomials' values. */
  ghost predicate Filled(shares: seq<Share>, secret: seq<Byte>, coefs: seq<seq<Byte>>)
    requires |shares| < 256 && |coefs| <= |secret|
  {
    forall i | 0 <= i < |shares| ::
      && |shares[i]| == 1 + |secret| && shares[i][0] == ToByte(i + 1)
      && forall k | 0 <= k < |coefs| :: shares[i][1 + k] == Eval([secret[k]] + coefs[k], ToByte(i + 1))
  }

  lemma FilledIsShares(shares: seq<Share>, secret: seq<Byte>, coefs: seq<seq<Byte>>)
    requires |shares| < 256 && |coefs| == |secret| && Filled(shares, secret, coefs)
    ensures shares == SharesOf(secret, coefs, |shares|)
  {
    hide Eval, ToByte;
    forall i | 0 <= i < |shares|
      ensures shares[i] == ShareAt(secret, coefs, ToByte(i + 1))
    {
      var share := ShareAt(secret, coefs, ToByte(i + 1));
      forall j | 0 <= j < 1 + |secret|
        ensures shares[i][j] == share[j]
      {
        if j > 0 {
          assert shares[i][1 + (j - 1)] == Eval([secret[j - 1]] + coefs[j - 1], ToByte(i + 1));
        }
      }
    }
  }

  /** One byte position: evaluates its polynomial at every x = 1..parts. */
  method FillColumn(t: Tables, shares0: seq<Share>, coef: seq<Byte>, idx: nat, len: nat) returns (shares: seq<Share>)
    requires t.Valid() && idx < len && |shares0| < 256
    requires forall i | 0 <= i < |shares0| :: |shares0[i]| == 1 + len
    ensures |shares| == |shares0|
    ensures forall i | 0 <= i < |shares| :: shares[i] == shares0[i][1 + idx := Eval(coef, ToByte(i + 1))]
  {
    hide Eval;
    shares := shares0;
    var x := 1;
    while x <= |shares0|
      invariant 1 <= x <= |shares0| + 1 && |shares| == |shares0|
      invariant forall i | 0 <= i < x - 1 :: shares[i] == shares0[i][1 + idx := Eval(coef, ToByte(i + 1))]
      invariant forall i | x - 1 <= i < |shares0| :: shares[i] == shares0[i]
    {
      var y := GfEval(t, ToByte(x), coef);
      shares := shares[x - 1 := shares[x - 1][1 + idx := y]];
      x := x + 1;
    }
  }

  // ---------- Combining ----------

  function Xs(shares: seq<Share>): (xs: seq<Byte>)
    requires forall s | s in shares :: |s| > 0
    ensures |xs| == |shares|
  {
    seq(|shares|, i requires 0 <= i < |shares| => shares[i][0])
  }

  /** What Combine accepts: two or more equally long shares at distinct non-zero points. */
  predicate WellFormed(shares: seq<Share>) {
    && |shares| >= 2 && |shares[0]| >= 2
    && (forall s | s in shares :: |s| == |shares[0]| && s[0] != ZERO)
    && Distinct(Xs(shares))
  }

  function Column(shares: seq<Share>, idx: nat): (ys: seq<Byte>)
    requires forall s | s in shares :: 1 + idx < |s|
    ensures |ys| == |shares|
  {
    seq(|shares|, i requires 0 <= i < |shares| => shares[i][1 + idx])
  }

  /** Each byte is the interpolation of its column at zero. */
  ghost function Combined(shares: seq<Share>): (secret: seq<Byte>)
    requires WellFormed(shares)
    ensures |secret| == |shares[0]| - 1
  {
    seq(|shares[0]| - 1, idx requires 0 <= idx < |shares[0]| - 1 => Dot(Column(shares, idx), Weights(Xs(shares))))
  }

  method Combine(t: Tables, shares: seq<Share>) returns (r: Result<seq<Byte>, CombineError>)
    requires t.Valid()
    ensures r.Ok? <==> WellFormed(shares)
    ensures r.Ok? ==> r.value == Combined(shares)
  {
    hide Weights, Dot, Distinct;
    var fault := Check(shares);
    if fault.Some? {
      return Err(fault.value);
    }
    var plain: seq<Byte> := [];
    ghost var goal := Combined(shares);
    for idx := 0 to |shares[0]| - 1
      invariant |plain| == idx
      invariant forall k | 0 <= k < idx :: plain[k] == goal[k]
    {
      var acc := CombineColumn(t, Xs(shares), Column(shares, idx));
      plain := plain + [acc];
    }
    r := Ok(plain);
  }

  /** The input checks of Combine, in its order. */
  method Check(shares: seq<Share>) returns (fault: Option<CombineError>)
    ensures fault.None? <==> WellFormed(shares)
  {
    if |shares| < 2 {
      return Some(TooFewShares);
    }
    var expected := |shares[0]|;
    if expected < 2 {
      return Some(ShareTooShort);
    }
    for i := 0 to |shares|
      invariant forall k | 0 <= k < i :: |shares[k]| == expected && shares[k][0] != ZERO
    {
      if |shares[i]| != expected {
        return Some(LengthMismatch);
      }
      if shares[i][0] == ZERO {
        return Some(ZeroX);
      }
    }
    var seen: set<Byte> := {};
    ghost var xs := Xs(shares);
    for i := 0 to |shares|
      invariant forall b :: b in seen <==> b in xs[..i]
      invariant Distinct(xs[..i])
    {
      if shares[i][0] in seen {
        ghost var k :| 0 <= k < i && xs[k] == xs[i];
        assert !Distinct(xs);
        return Some(DuplicateX);
      }
      seen := seen + {shares[i][0]};
      assert xs[..i + 1] == xs[..i] + [xs[i]];
    }
    assert xs[..|shares|] == xs;
    return None;
  }

  /** One byte position: the weighted sum of the shares' values. No denominator is ever zero. */
  method CombineColumn(t: Tables, xs: seq<Byte>, ys: seq<Byte>) returns (acc: Byte)
    requires t.Valid() && |xs| == |ys| && Distinct(xs)
    ensures acc == Dot(ys, Weights(xs))
  {
    hide Mul, Add, Weight;
    acc := ZERO;
    ghost var ws := Weights(xs);
    for i := 0 to |xs|
      invariant acc == Dot(ys[..i], ws[..i])
    {
      var num, den := Fraction(t, xs, i);
      forall k | 0 <= k < |Others(xs, i)|
        ensures Others(xs, i)[k] != xs[i]
      {}
      DenNonZero(xs[i], Others(xs, i));
      var inverse := t.GfInv(den);
      WeightIsFraction(xs[i], Others(xs, i), inverse.value);
      var weight := t.GfMul(num, inverse.value);
      var term := t.GfMul(ys[i], weight);
      assert ys[..i + 1][..i] == ys[..i] && ws[..i + 1][..i] == ws[..i];
      acc := Add(acc, term);
    }
    assert ys[..|xs|] == ys && ws[..|xs|] == ws;
  }

  /** Numerator and denominator of the weight, skipping the point itself. */
  method Fraction(t: Tables, xs: seq<Byte>, i: nat) returns (num: Byte, den: Byte)
    requires t.Valid() && i < |xs|
    ensures num == Num(Others(xs, i)) && den == Den(xs[i], Others(xs, i))
  {
    hide Mul, Add;
    num, den := ONE, ONE;
    ghost var done: seq<Byte> := [];
    for j := 0 to |xs|
      invariant done == if j <= i then xs[..j] else xs[..i] + xs[i + 1..j]
      invariant num == Num(done) && den == Den(xs[i], done)
    {
      assert xs[..j + 1] == xs[..j] + [xs[j]];
      assert j > i ==> xs[i + 1..j + 1] == xs[i + 1..j] + [xs[j]];
      if j != i {
        assert (done + [xs[j]])[..|done|] == done;
        done := done + [xs[j]];
        num := t.GfMul(num, xs[j]);
        den := t.GfMul(den, Add(xs[i], xs[j]));
      }
    }
    assert done == Others(xs, i);
  }

  function Num(s: seq<Byte>): Byte {
    if |s| == 0 then ONE else Mul(Num(s[..|s| - 1]), s[|s| - 1])
  }

  function Den(x: Byte, s: seq<Byte>): Byte
    decreases |s|
  {
    if |s| == 0 then ONE else Mul(Den(x, s[..|s| - 1]), Add(x, s[|s| - 1]))
  }

  lemma {:induction false} DenNonZero(x: Byte, s: seq<Byte>)
    requires x !in s
    ensures Den(x, s) != ZERO
    decreases |s|
  {
    hide Mul, Add;
    if |s| > 0 {
      var n := |s| - 1;
      DenNonZero(x, s[..n]);
      AddCancel(x, s[n]);
      MulNonZero(Den(x, s[..n]), Add(x, s[n]));
    }
  }

  lemma {:induction false} WeightTimesDen(x: Byte, s: seq<Byte>)
    requires x !in s
    ensures Mul(Weight(x, s), Den(x, s)) == Num(s)
    decreases |s|
  {
    hide Mul, Add, Inv;
    if |s| == 0 {
      MulOne(ONE);
    } else {
      var n := |s| - 1;
      var w, d, l, e := Weight(x, s[..n]), Den(x, s[..n]), s[n], Add(x, s[n]);
      WeightTimesDen(x, s[..n]);
      AddCancel(x, l);
      assert Mul(e, Inv(e)) == ONE;
      calc {
        Mul(Mul(w, Mul(l, Inv(e))), Mul(d, e));
      ==  { MulAssoc(w, Mul(l, Inv(e)), Mul(d, e)); MulComm(Mul(l, Inv(e)), Mul(d, e)); }
        Mul(w, Mul(Mul(d, e), Mul(l, Inv(e))));
      ==  { MulComm(l, Inv(e)); MulAssoc(d, e, Mul(Inv(e), l)); MulAssoc(e, Inv(e), l); MulOne(l); }
        Mul(w, Mul(d, l));
      ==  { MulAssoc(w, d, l); }
        Mul(Num(s[..n]), l);
      }
    }
  }

  lemma WeightIsFraction(x: Byte, s: seq<Byte>, inverse: Byte)
    requires x !in s && Mul(Den(x, s), inverse) == ONE
    ensures Mul(Num(s), inverse) == Weight(x, s)
  {
    hide Mul, Weight, Den, Num;
    WeightTimesDen(x, s);
    MulAssoc(Weight(x, s), Den(x, s), inverse);
    MulOne(Weight(x, s));
  }

  method CombineWithThreshold(t: Tables, shares: seq<Share>, threshold: int)
    returns (r: Result<seq<Byte>, CombineError>)
    requires t.Valid()
    ensures r.Ok? <==> WellFormed(shares) && (threshold <= 0 || threshold <= |shares|)
    ensures r.Ok? ==> r.value == Combined(shares)
  {
    if threshold > 0 && |shares| < threshold {
      return Err(TooFewShares);
    }
    r := Combine(t, shares);
  }

  // ---------- What sharing promises ----------

  /** A choice of shares: pairwise different positions, in any order. */
  ghost predicate Choice(pick: seq<nat>, parts: nat) {
    && (forall k | 0 <= k < |pick| :: pick[k] < parts)
    && forall j, k | 0 <= j < k < |pick| :: pick[j] != pick[k]
  }

  ghost function Chosen(shares: seq<Share>, pick: seq<nat>): (r: seq<Share>)
    requires Choice(pick, |shares|)
    ensures |r| == |pick|
  {
    seq(|pick|, k requires 0 <= k < |pick| => shares[pick[k]])
  }

  lemma ChosenWellFormed(secret: seq<Byte>, coefs: seq<seq<Byte>>, parts: nat, pick: seq<nat>)
    requires |secret| == |coefs| && |secret| > 0 && parts < 256 && Choice(pick, parts) && |pick| >= 2
    ensures WellFormed(Chosen(SharesOf(secret, coefs, parts), pick))
  {
    hide Eval, ToByte, Index;
    var shares := Chosen(SharesOf(secret, coefs, parts), pick);
    forall k | 0 <= k < |pick|
      ensures shares[k][0] != ZERO
    {
      IndexToByte(pick[k] + 1);
      IndexZero(ToByte(pick[k] + 1));
    }
    forall j, k | 0 <= j < k < |pick|
      ensures Xs(shares)[j] != Xs(shares)[k]
    {
      IndexToByte(pick[j] + 1);
      IndexToByte(pick[k] + 1);
    }
  }

  /** Any threshold or more shares, in any order, combine to exactly the secret. */
  lemma SharesRecoverSecret(secret: seq<Byte>, coefs: seq<seq<Byte>>, parts: nat, threshold: nat, pick: seq<nat>)
    requires |secret| == |coefs| && |secret| > 0 && 2 <= threshold <= parts <= 255
    requires forall i | 0 <= i < |coefs| :: |coefs[i]| == threshold - 1
    requires Choice(pick, parts) && |pick| >= threshold
    ensures WellFormed(Chosen(SharesOf(secret, coefs, parts), pick))
    ensures Combined(Chosen(SharesOf(secret, coefs, parts), pick)) == secret
  {
    hide Eval, Dot, Weights, ToByte;
    var shares := Chosen(SharesOf(secret, coefs, parts), pick);
    ChosenWellFormed(secret, coefs, parts, pick);
    var xs := Xs(shares);
    forall idx | 0 <= idx < |secret|
      ensures Combined(shares)[idx] == secret[idx]
    {
      var c := Polynomial(secret, coefs, idx);
      assert Column(shares, idx) == Values(c, xs);
      LagrangeAtZero(c, xs);
      EvalAtZero(c);
    }
  }

  lemma EvalAtZero(c: seq<Byte>)
    requires |c| > 0
    ensures Eval(c, ZERO) == c[0]
  {
    hide Mul, Add;
    MulZero(Eval(c[1..], ZERO));
    AddZero(c[0]);
  }

  ghost predicate Explains(rest: seq<Byte>, secret: Byte, xs: seq<Byte>, ys: seq<Byte>) {
    && |rest| == |xs| == |ys|
    && forall i | 0 <= i < |xs| :: Eval([secret] + rest, xs[i]) == ys[i]
  }

  /**
    One share fewer fixes nothing: for every secret byte there is exactly one
    list of random coefficients that produces the observed shares.
    */
  lemma FewerSharesFixNothing(xs: seq<Byte>, ys: seq<Byte>, secret: Byte) returns (rest: seq<Byte>)
    requires |xs| == |ys| && Distinct(xs) && ZERO !in xs
    ensures Explains(rest, secret, xs, ys)
    ensures forall other | Explains(other, secret, xs, ys) :: other == rest
  {
    hide Eval;
    var xs0, ys0 := [ZERO] + xs, [secret] + ys;
    var c := InterpolationExists(xs0, ys0);
    assert Eval(c, xs0[0]) == ys0[0];
    EvalAtZero(c);
    rest := c[1..];
    assert c == [secret] + rest;
    forall i | 0 <= i < |xs|
      ensures Eval(c, xs[i]) == ys[i]
    {
      assert Eval(c, xs0[i + 1]) == ys0[i + 1];
    }
    forall other | Explains(other, secret, xs, ys)
      ensures other == rest
    {
      var d := [secret] + other;
      EvalAtZero(d);
      assert Fits(d, xs0, ys0);
      InterpolationUnique(xs0, ys0, c, d);
      assert d[1..] == other;
    }
  }
}
