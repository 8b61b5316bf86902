/**
  The log and antilog tables of internal/seal/shamir.go: 0x03 generates every
  non-zero byte, so the table lookups multiply and invert in the field.
  */
module GfTables {
  import opened Gf256
  import opened Options
  import opened Collections

  const GENERATOR := Byte(0x03)

  function Pow(n: nat): Byte {
    if n == 0 then ONE else Mul(Pow(n - 1), GENERATOR)
  }

  lemma {:induction false} PowAdd(i: nat, j: nat)
    ensures Pow(i + j) == Mul(Pow(i), Pow(j))
    decreases j
  {
    hide Mul;
    if j == 0 {
      MulOne(Pow(i));
    } else {
      PowAdd(i, j - 1);
      MulAssoc(Pow(i), Pow(j - 1), GENERATOR);
    }
  }

  // ---------- The order of the generator ----------

  lemma PowSum(m: nat, n: nat, b: bv8, c: bv8, d: bv8)
    requires Pow(m) == Byte(b) && Pow(n) == Byte(c) && Unrolled(Byte(b), Byte(c)) == Byte(d)
    ensures Pow(m + n) == Byte(d)
  {
    hide Mul, Unrolled, Pow;
    PowAdd(m, n);
    MulUnrolled(Byte(b), Byte(c));
  }

  lemma PowOne()
    ensures Pow(1) == GENERATOR
  {
    hide Mul;
    assert Pow(1) == Mul(Pow(0), GENERATOR);
    MulOne(GENERATOR);
  }

  lemma PowFifteen()
    ensures Pow(2) == Byte(0x05) && Pow(15) == Byte(0x35)
  {
    hide Mul, Pow;
    PowOne();
    PowSum(1, 1, 0x03, 0x03, 0x05);
    PowSum(1, 2, 0x03, 0x05, 0x0f);
    PowSum(3, 3, 0x0f, 0x0f, 0x55);
    PowSum(6, 6, 0x55, 0x55, 0xa1);
    PowSum(12, 3, 0xa1, 0x0f, 0x35);
  }

  lemma PowThirtyFour()
    ensures Pow(17) == Byte(0xe1) && Pow(34) == Byte(0x5c)
  {
    hide Mul, Pow;
    PowFifteen();
    PowSum(15, 2, 0x35, 0x05, 0xe1);
    PowSum(17, 17, 0xe1, 0xe1, 0x5c);
  }

  lemma PowEightyFive()
    ensures Pow(51) == Byte(0x0c) && Pow(85) == Byte(0xbd)
  {
    hide Mul, Pow;
    PowThirtyFour();
    PowSum(34, 17, 0x5c, 0xe1, 0x0c);
    PowSum(51, 34, 0x0c, 0x5c, 0xbd);
  }

  /** 255 is a period, and none of its maximal proper divisors is. */
  lemma PowLandmarks()
    ensures Pow(15) == Byte(0x35) && Pow(51) == Byte(0x0c) && Pow(85) == Byte(0xbd)
    ensures Pow(255) == ONE
  {
    hide Mul, Pow;
    PowFifteen();
    PowEightyFive();
    PowSum(85, 85, 0xbd, 0xbd, 0xbc);
    PowSum(170, 85, 0xbc, 0xbd, 0x01);
  }

  lemma {:induction false} PowPeriods(e: nat, q: nat, r: nat)
    requires Pow(e) == ONE
    ensures Pow(e * q + r) == Pow(r)
    decreases q
  {
    hide Mul;
    if q > 0 {
      PowPeriods(e, q - 1, r);
      PowAdd(e, e * (q - 1) + r);
      MulOne(Pow(r));
      assert e * q + r == e + (e * (q - 1) + r);
    }
  }

  lemma MaximalDivisor(e: nat, q: nat) returns (k: nat)
    requires e * q == 255 && e < 255
    ensures e * k == 15 || e * k == 51 || e * k == 85
  {
    if e <= 15 {
      SmallDivisor(e, q);
      k := 15 / e;
    } else {
      assert q <= 16;
      SmallDivisor(q, e);
      k := q / 3;
    }
  }

  lemma SmallDivisor(d: nat, c: nat)
    requires d * c == 255 && d <= 16
    ensures d in {1, 3, 5, 15} && c == 255 / d
  {
    assert d in {0, 1, 2, 3, 4, 5, 6, 7, 8, 9, 10, 11, 12, 13, 14, 15, 16};
  }

  /** The generator has order exactly 255. */
  lemma {:induction false} PowNotOne(e: nat)
    requires 0 < e < 255
    ensures Pow(e) != ONE
    decreases e
  {
    hide Mul, Pow;
    PowLandmarks();
    PowZero();
    var q, r := 255 / e, 255 % e;
    assert 255 == e * q + r;
    if Pow(e) == ONE {
      PowPeriods(e, q, r);
      if r > 0 {
        PowNotOne(r);
      } else {
        var k := MaximalDivisor(e, q);
        PowPeriods(e, k, 0);
      }
    }
  }

  lemma PowZero()
    ensures Pow(0) == ONE
  {}

  // ---------- Every non-zero byte is a power of the generator ----------

  lemma PowCancel(i: nat, j: nat)
    requires i <= 255
    ensures Mul(Pow(i), Pow(255 - i)) == ONE
    ensures Pow(i + j) == Pow(i) ==> Pow(j) == ONE
  {
    hide Mul, Pow;
    PowLandmarks();
    PowAdd(i, 255 - i);
    if Pow(i + j) == Pow(i) {
      PowAdd(i, j);
      MulComm(Pow(i), Pow(255 - i));
      MulAssoc(Pow(255 - i), Pow(i), Pow(j));
      MulOne(Pow(j));
    }
  }

  lemma PowNonZero(i: nat)
    requires i <= 255
    ensures Pow(i) != ZERO
  {
    hide Mul, Pow;
    PowCancel(i, 0);
    MulZero(Pow(255 - i));
  }

  lemma PowDistinct(i: nat, j: nat)
    requires i < j < 255
    ensures Pow(i) != Pow(j)
  {
    hide Mul, Pow;
    PowCancel(i, j - i);
    PowNotOne(j - i);
  }

  function Index(a: Byte): (i: nat)
    ensures i < 256
  {
    a.bits as int
  }

  lemma IndexInjective(a: Byte, b: Byte)
    requires Index(a) == Index(b)
    ensures a == b
  {
    ToByteIndex(a);
    ToByteIndex(b);
  }

  lemma IndexZero(a: Byte)
    ensures Index(a) == 0 <==> a == ZERO
  {
    if Index(a) == 0 {
      assert Index(ZERO) == 0;
      IndexInjective(a, ZERO);
    }
  }

  ghost function Covered(n: nat): set<nat> {
    set i: nat | i < n :: Index(Pow(i))
  }

  lemma {:induction false} CoveredCard(n: nat)
    requires n <= 255
    ensures |Covered(n)| == n
  {
    hide Pow, Index;
    if n == 0 {
      assert Covered(0) == {};
    } else {
      CoveredCard(n - 1);
      assert Covered(n) == Covered(n - 1) + {Index(Pow(n - 1))};
      if Index(Pow(n - 1)) in Covered(n - 1) {
        var i: nat :| i < n - 1 && Index(Pow(i)) == Index(Pow(n - 1));
        IndexInjective(Pow(i), Pow(n - 1));
        PowDistinct(i, n - 1);
      }
    }
  }

  ghost function UpTo(n: nat): (s: set<nat>)
    ensures |s| == n && forall i: nat :: i in s <==> 0 < i <= n
  {
    if n == 0 then {} else UpTo(n - 1) + {n}
  }

  lemma PowersCoverAll()
    ensures Covered(255) == UpTo(255)
  {
    hide Pow, Index;
    CoveredCard(255);
    forall x | x in Covered(255)
      ensures x in UpTo(255)
    {
      var i: nat :| i < 255 && x == Index(Pow(i));
      PowNonZero(i);
      IndexZero(Pow(i));
    }
    SubsetSize(Covered(255), UpTo(255));
  }

  /** The discrete logarithm: 0x03 is a primitive root. */
  lemma LogExists(a: Byte) returns (i: nat)
    requires a != ZERO
    ensures i < 255 && Pow(i) == a
  {
    hide Pow, Index;
    PowersCoverAll();
    IndexZero(a);
    assert Index(a) in Covered(255);
    i :| i < 255 && Index(Pow(i)) == Index(a);
    IndexInjective(Pow(i), a);
  }

  function ToByte(n: nat): Byte
    requires n < 256
  {
    Byte(n as bv8)
  }

  lemma ToByteIndex(a: Byte)
    ensures ToByte(Index(a)) == a
  {}

  lemma IndexToByte(n: nat)
    requires n < 256
    ensures Index(ToByte(n)) == n
  {
    hide Pow, Index, ToByte;
    if n == 0 {
      IndexZero(ZERO);
      ToByteIndex(ZERO);
    } else {
      PowersCoverAll();
      assert n in UpTo(255);
      var i: nat :| i < 255 && n == Index(Pow(i));
      ToByteIndex(Pow(i));
    }
  }

  // ---------- Inverses ----------

  lemma InverseExists(a: Byte)
    requires a != ZERO
    ensures exists b: Byte :: Mul(a, b) == ONE
  {
    hide Mul, Pow;
    var i := LogExists(a);
    PowCancel(i, 0);
  }

  /** The inverse, with the convention that zero maps to zero. */
  ghost function Inv(a: Byte): (r: Byte)
    ensures a != ZERO ==> Mul(a, r) == ONE
  {
    if a == ZERO then
      ZERO
    else
      InverseExists(a);
      var b: Byte :| Mul(a, b) == ONE; b
  }

  lemma MulCancel(a: Byte, b: Byte, c: Byte)
    requires a != ZERO && Mul(a, b) == Mul(a, c)
    ensures b == c
  {
    hide Mul;
    MulComm(a, Inv(a));
    MulAssoc(Inv(a), a, b);
    MulAssoc(Inv(a), a, c);
    MulOne(b);
    MulOne(c);
  }

  lemma MulNonZero(a: Byte, b: Byte)
    requires a != ZERO && b != ZERO
    ensures Mul(a, b) != ZERO
  {
    hide Mul;
    if Mul(a, b) == ZERO {
      MulZero(a);
      MulCancel(a, b, ZERO);
    }
  }

  lemma PowStep(i: nat)
    ensures Pow(i + 1) == Mul(Pow(i), GENERATOR)
  {}

  /** No earlier power has the next power's table slot. */
  lemma FreshIndex(i: nat)
    requires i < 255
    ensures forall k: nat | k < i :: Index(Pow(k)) != Index(Pow(i))
  {
    hide Pow, Index;
    forall k: nat | k < i
      ensures Index(Pow(k)) != Index(Pow(i))
    {
      PowDistinct(k, i);
      if Index(Pow(k)) == Index(Pow(i)) {
        IndexInjective(Pow(k), Pow(i));
      }
    }
  }

  // ---------- The tables ----------

  class Tables {
    const exp: array<Byte>
    const log: array<nat>

    ghost predicate Valid()
      reads exp, log
    {
      && exp.Length == 512 && log.Length == 256
      && (forall i: nat | i < 512 :: exp[i] == Pow(i))
      && (forall i: nat | i < 255 :: log[Index(Pow(i))] == i)
    }

    /** init: powers of the generator and their logarithms, then the wrapped copy. */
    constructor ()
      ensures Valid() && fresh(exp) && fresh(log)
    {
      exp := new Byte[512];
      log := new nat[256];
      new;
      FillPowers();
      FillWrapped();
    }

    method FillPowers()
      requires exp.Length == 512 && log.Length == 256
      modifies exp, log
      ensures forall k: nat | k < 255 :: exp[k] == Pow(k)
      ensures forall k: nat | k < 255 :: log[Index(Pow(k))] == k
    {
      hide Mul, Pow, Index;
      var x := ONE;
      var i := 0;
      PowZero();
      while i < 255
        invariant 0 <= i <= 255
        invariant x == Pow(i)
        invariant forall k: nat | k < i :: exp[k] == Pow(k)
        invariant forall k: nat | k < i :: log[Index(Pow(k))] == k
      {
        FreshIndex(i);
        exp[i] := x;
        log[Index(x)] := i;
        x := MulNoTable(x, GENERATOR);
        PowStep(i);
        i := i + 1;
      }
    }

    method FillWrapped()
      requires exp.Length == 512
      requires forall k: nat | k < 255 :: exp[k] == Pow(k)
      modifies exp
      ensures forall k: nat | k < 512 :: exp[k] == Pow(k)
    {
      hide Mul, Pow;
      var i := 255;
      while i < 512
        invariant 255 <= i <= 512
        invariant forall k: nat | k < i :: exp[k] == Pow(k)
      {
        PowLandmarks();
        PowAdd(255, i - 255);
        MulOne(Pow(i - 255));
        exp[i] := exp[i - 255];
        i := i + 1;
      }
    }

    /** gfMul: one lookup in the doubled table, no reduction of the exponent. */
    method GfMul(a: Byte, b: Byte) returns (r: Byte)
      requires Valid()
      ensures r == Mul(a, b)
    {
      hide Mul, Pow, Index;
      if a == ZERO || b == ZERO {
        MulZero(a);
        MulZero(b);
        r := ZERO;
      } else {
        ghost var i := LogExists(a);
        ghost var j := LogExists(b);
        PowAdd(i, j);
        r := exp[log[Index(a)] + log[Index(b)]];
      }
    }

    /** gfInv: zero is refused; otherwise the multiplicative inverse. */
    method GfInv(a: Byte) returns (r: Option<Byte>)
      requires Valid()
      ensures r.None? <==> a == ZERO
      ensures r.Some? ==> Mul(a, r.value) == ONE
    {
      hide Mul, Pow, Index;
      if a == ZERO {
        r := None;
      } else {
        ghost var i := LogExists(a);
        PowCancel(i, 0);
        r := Some(exp[255 - log[Index(a)]]);
      }
    }
  }
}
