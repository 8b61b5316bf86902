/**
  The field GF(2^8) of internal/seal/shamir.go: bytes with XOR as addition and
  Russian-peasant multiplication reduced by x^8 + x^4 + x^3 + x + 1.

  The ring laws all follow from two bit-level facts (XTime is additive, and
  eight XTimes reduce as the polynomial says) by short inductions over the
  eight rounds of the multiplication loop.
  */
module Gf256 {

  datatype Byte = Byte(bits: bv8)

  type Bytes = seq<Byte>

  const ZERO := Byte(0)
  const ONE := Byte(1)

  /** Addition (and subtraction): XOR. */
  function Add(a: Byte, b: Byte): Byte {
    Byte(a.bits ^ b.bits)
  }

  /** Multiplication by the polynomial x, reduced. */
  function XTime(a: Byte): Byte {
    Byte(if a.bits & 0x80 != 0 then (a.bits << (1 as bv8)) ^ 0x1b else a.bits << (1 as bv8))
  }

  function Half(b: Byte): Byte {
    Byte(b.bits >> (1 as bv8))
  }

  function Odd(b: Byte): bool {
    b.bits & 1 != 0
  }

  function Pick(b: Byte, a: Byte): Byte {
    if Odd(b) then a else ZERO
  }

  /** The sum of the n low bits of b, each weighing a times a power of x. */
  function MulFrom(a: Byte, b: Byte, n: nat): Byte
    decreases n
  {
    if n == 0 then ZERO else Add(Pick(b, a), MulFrom(XTime(a), Half(b), n - 1))
  }

  function Mul(a: Byte, b: Byte): Byte {
    MulFrom(a, b, 8)
  }

  /** gfMulNoTable: eight rounds of conditional add, double and halve. */
  method MulNoTable(a0: Byte, b0: Byte) returns (result: Byte)
    ensures result == Mul(a0, b0)
  {
    hide Add, XTime, Half, Odd;
    var a, b := a0, b0;
    result := ZERO;
    var i := 0;
    AddZero(Mul(a0, b0));
    while i < 8
      invariant 0 <= i <= 8
      invariant Add(result, MulFrom(a, b, 8 - i)) == Mul(a0, b0)
    {
      ghost var rest := MulFrom(XTime(a), Half(b), 7 - i);
      assert MulFrom(a, b, 8 - i) == Add(Pick(b, a), rest);
      AddAssoc(result, Pick(b, a), rest);
      AddZero(result);
      if Odd(b) {
        result := Add(result, a);
      }
      a, b := XTime(a), Half(b);
      i := i + 1;
    }
    AddZero(result);
  }

  // ---------- Addition ----------

  lemma AddComm(a: Byte, b: Byte)
    ensures Add(a, b) == Add(b, a)
  {}

  lemma AddAssoc(a: Byte, b: Byte, c: Byte)
    ensures Add(Add(a, b), c) == Add(a, Add(b, c))
  {}

  lemma AddZero(a: Byte)
    ensures Add(a, ZERO) == a && Add(ZERO, a) == a
  {}

  lemma AddSelf(a: Byte)
    ensures Add(a, a) == ZERO
  {}

  lemma AddSwap(a: Byte, b: Byte, c: Byte, d: Byte)
    ensures Add(Add(a, b), Add(c, d)) == Add(Add(a, c), Add(b, d))
  {}

  lemma AddCancel(a: Byte, b: Byte)
    ensures Add(a, Add(a, b)) == b && Add(Add(b, a), a) == b
    ensures Add(a, b) == ZERO <==> a == b
  {}

  // ---------- Bit-level facts ----------

  lemma XTimeForm(a: Byte)
    ensures XTime(a).bits == (a.bits << (1 as bv8)) ^ ((a.bits >> (7 as bv8)) * 0x1b)
  {
    if a.bits & 0x80 != 0 {} else {}
  }

  lemma XTimeAdd(a: Byte, b: Byte)
    ensures XTime(Add(a, b)) == Add(XTime(a), XTime(b))
  {
    XTimeForm(a);
    XTimeForm(b);
    XTimeForm(Add(a, b));
  }

  lemma XTimeZero()
    ensures XTime(ZERO) == ZERO
  {
    XTimeForm(ZERO);
  }

  lemma HalfAdd(a: Byte, b: Byte)
    ensures Half(Add(a, b)) == Add(Half(a), Half(b))
  {}

  lemma PickAddLeft(b: Byte, c: Byte, a: Byte)
    ensures Pick(Add(b, c), a) == Add(Pick(b, a), Pick(c, a))
  {
    if Odd(b) {}
    if Odd(c) {}
  }

  lemma PickAddRight(b: Byte, x: Byte, y: Byte)
    ensures Pick(b, Add(x, y)) == Add(Pick(b, x), Pick(b, y))
  {}

  lemma PickXTime(b: Byte, a: Byte)
    ensures XTime(Pick(b, a)) == Pick(b, XTime(a))
  {
    XTimeZero();
  }

  // ---------- Bilinearity ----------

  lemma {:induction false} MulFromAddRight(a: Byte, b: Byte, c: Byte, n: nat)
    ensures MulFrom(a, Add(b, c), n) == Add(MulFrom(a, b, n), MulFrom(a, c, n))
    decreases n
  {
    hide Add, XTime, Half, Pick;
    if n == 0 {
      AddZero(ZERO);
    } else {
      HalfAdd(b, c);
      PickAddLeft(b, c, a);
      MulFromAddRight(XTime(a), Half(b), Half(c), n - 1);
      AddSwap(Pick(b, a), Pick(c, a), MulFrom(XTime(a), Half(b), n - 1), MulFrom(XTime(a), Half(c), n - 1));
    }
  }

  lemma {:induction false} MulFromAddLeft(a: Byte, b: Byte, c: Byte, n: nat)
    ensures MulFrom(Add(a, b), c, n) == Add(MulFrom(a, c, n), MulFrom(b, c, n))
    decreases n
  {
    hide Add, XTime, Half, Pick;
    if n == 0 {
      AddZero(ZERO);
    } else {
      XTimeAdd(a, b);
      PickAddRight(c, a, b);
      MulFromAddLeft(XTime(a), XTime(b), Half(c), n - 1);
      AddSwap(Pick(c, a), Pick(c, b), MulFrom(XTime(a), Half(c), n - 1), MulFrom(XTime(b), Half(c), n - 1));
    }
  }

  lemma {:induction false} MulFromXTime(a: Byte, b: Byte, n: nat)
    ensures MulFrom(XTime(a), b, n) == XTime(MulFrom(a, b, n))
    decreases n
  {
    hide Add, XTime, Half, Pick;
    if n == 0 {
      XTimeZero();
    } else {
      PickXTime(b, a);
      MulFromXTime(XTime(a), Half(b), n - 1);
      XTimeAdd(Pick(b, a), MulFrom(XTime(a), Half(b), n - 1));
    }
  }

  /** Multiplying commutes with the rounds of another multiplication. */
  lemma {:induction false} MulOfMulFrom(x: Byte, b: Byte, a: Byte, n: nat)
    ensures Mul(MulFrom(x, b, n), a) == MulFrom(Mul(x, a), b, n)
    decreases n
  {
    hide Add, XTime, Half, Odd;
    MulFromZero(a, 8);
    if n > 0 {
      var rest := MulFrom(XTime(x), Half(b), n - 1);
      MulFromAddLeft(Pick(b, x), rest, a, 8);
      MulOfMulFrom(XTime(x), Half(b), a, n - 1);
      MulFromXTime(x, a, 8);
      assert Mul(Pick(b, x), a) == Pick(b, Mul(x, a));
    }
  }

  lemma {:induction false} MulFromZero(b: Byte, n: nat)
    ensures MulFrom(ZERO, b, n) == ZERO
    decreases n
  {
    hide Add, XTime, Half;
    if n > 0 {
      XTimeZero();
      AddZero(ZERO);
      MulFromZero(Half(b), n - 1);
    }
  }

  // ---------- Ring laws ----------

  lemma MulZero(a: Byte)
    ensures Mul(ZERO, a) == ZERO && Mul(a, ZERO) == ZERO
  {
    MulFromZero(a, 8);
    MulComm(a, ZERO);
  }

  lemma MulOne(a: Byte)
    ensures Mul(ONE, a) == a && Mul(a, ONE) == a
  {
    MulOneLeft(a);
    MulComm(a, ONE);
  }

  lemma MulComm(a: Byte, b: Byte)
    ensures Mul(a, b) == Mul(b, a)
  {
    hide MulFrom;
    MulOfMulFrom(ONE, b, a, 8);
    MulOneLeft(a);
    MulOneLeft(b);
  }

  lemma MulAssoc(a: Byte, b: Byte, c: Byte)
    ensures Mul(Mul(a, b), c) == Mul(a, Mul(b, c))
  {
    hide MulFrom;
    MulOfMulFrom(b, a, c, 8);
    MulComm(a, b);
    MulComm(a, Mul(b, c));
  }

  lemma Distrib(a: Byte, b: Byte, c: Byte)
    ensures Mul(a, Add(b, c)) == Add(Mul(a, b), Mul(a, c))
    ensures Mul(Add(b, c), a) == Add(Mul(b, a), Mul(c, a))
  {
    hide Add, MulFrom;
    MulFromAddRight(a, b, c, 8);
    MulFromAddLeft(b, c, a, 8);
  }

  /** An operation additive on the left, in which doubling acts as XTime and ONE is neutral. */
  ghost predicate IsProduct(f: (Byte, Byte) -> Byte) {
    && (forall x, y, z :: f(Add(x, y), z) == Add(f(x, z), f(y, z)))
    && (forall x, z :: f(XTime(x), z) == XTime(f(x, z)))
    && (forall z :: f(ONE, z) == z)
  }

  /** These laws leave no choice: Mul is the product of section 4.2 of FIPS 197. */
  lemma MulIsTheOnlyProduct(f: (Byte, Byte) -> Byte, a: Byte, b: Byte)
    requires IsProduct(f)
    ensures f(a, b) == Mul(a, b)
  {
    assert f(ONE, b) == b;
    hide MulFrom, IsProduct;
    ProductOfRounds(f, ONE, a, b, 8);
    MulOneLeft(a);
    MulComm(a, b);
  }

  lemma MulIsProduct()
    ensures IsProduct(Mul)
  {
    hide MulFrom, Add, XTime;
    forall x, y, z ensures Mul(Add(x, y), z) == Add(Mul(x, z), Mul(y, z)) { MulFromAddLeft(x, y, z, 8); }
    forall x, z ensures Mul(XTime(x), z) == XTime(Mul(x, z)) { MulFromXTime(x, z, 8); }
    forall z ensures Mul(ONE, z) == z { MulOneLeft(z); }
  }

  lemma ProductLaws(f: (Byte, Byte) -> Byte, x: Byte, y: Byte, z: Byte)
    requires IsProduct(f)
    ensures f(Add(x, y), z) == Add(f(x, z), f(y, z)) && f(XTime(x), z) == XTime(f(x, z))
    ensures f(ZERO, z) == ZERO
  {
    AddSelf(x);
    AddSelf(f(x, z));
    assert f(Add(x, x), z) == Add(f(x, z), f(x, z));
  }

  lemma {:induction false} ProductOfRounds(f: (Byte, Byte) -> Byte, x: Byte, a: Byte, b: Byte, n: nat)
    requires IsProduct(f)
    ensures f(MulFrom(x, a, n), b) == MulFrom(f(x, b), a, n)
    decreases n
  {
    hide Add, XTime, Half, Odd, IsProduct;
    ProductLaws(f, x, x, b);
    if n > 0 {
      var rest := MulFrom(XTime(x), Half(a), n - 1);
      ProductOfRounds(f, XTime(x), Half(a), b, n - 1);
      ProductLaws(f, Pick(a, x), rest, b);
    }
  }

  function Masked(b: Byte, m: bv8): Byte {
    Byte(b.bits & m)
  }

  /** 1 * b == b: additive in b, so it is enough to check the eight single bits. */
  lemma MulOneLeft(b: Byte)
    ensures Mul(ONE, b) == b
  {
    hide Mul;
    OneHalf(b, 0x08, 0x04, 0x02, 0x01);
    OneHalf(b, 0x80, 0x40, 0x20, 0x10);
    var high, low := Masked(b, 0xf0), Masked(b, 0x0f);
    OneAdd(high, low);
    assert Add(high, low) == b;
  }

  lemma OneHalf(b: Byte, p: bv8, q: bv8, r: bv8, s: bv8)
    requires (p, q, r, s) == (0x80, 0x40, 0x20, 0x10) || (p, q, r, s) == (0x08, 0x04, 0x02, 0x01)
    ensures Mul(ONE, Masked(b, p | q | r | s)) == Masked(b, p | q | r | s)
  {
    hide Mul;
    OneBit(b, p);
    OneBit(b, q);
    OneBit(b, r);
    OneBit(b, s);
    OneAdd(Masked(b, p), Masked(b, q));
    OneAdd(Masked(b, r), Masked(b, s));
    OneAdd(Add(Masked(b, p), Masked(b, q)), Add(Masked(b, r), Masked(b, s)));
    assert Add(Add(Masked(b, p), Masked(b, q)), Add(Masked(b, r), Masked(b, s))) == Masked(b, p | q | r | s);
  }

  lemma OneAdd(x: Byte, y: Byte)
    requires Mul(ONE, x) == x && Mul(ONE, y) == y
    ensures Mul(ONE, Add(x, y)) == Add(x, y)
  {
    hide Mul, Add;
    Distrib(ONE, x, y);
  }

  lemma OneBit(b: Byte, m: bv8)
    requires m in {0x80, 0x40, 0x20, 0x10, 0x08, 0x04, 0x02, 0x01}
    ensures Mul(ONE, Masked(b, m)) == Masked(b, m)
  {
    if Masked(b, m) == ZERO {
      hide Mul;
      OneBasis();
      OneAdd(ONE, ONE);
    } else {
      assert Masked(b, m) == Byte(m);
      hide Mul;
      OneBasis();
    }
  }

  lemma OneBasis()
    ensures Mul(ONE, ONE) == ONE && Mul(ONE, Byte(0x02)) == Byte(0x02)
    ensures Mul(ONE, Byte(0x04)) == Byte(0x04) && Mul(ONE, Byte(0x08)) == Byte(0x08)
    ensures Mul(ONE, Byte(0x10)) == Byte(0x10) && Mul(ONE, Byte(0x20)) == Byte(0x20)
    ensures Mul(ONE, Byte(0x40)) == Byte(0x40) && Mul(ONE, Byte(0x80)) == Byte(0x80)
  {
    hide Mul;
    MulUnrolled(ONE, Byte(0x01));
    MulUnrolled(ONE, Byte(0x02));
    MulUnrolled(ONE, Byte(0x04));
    MulUnrolled(ONE, Byte(0x08));
    MulUnrolled(ONE, Byte(0x10));
    MulUnrolled(ONE, Byte(0x20));
    MulUnrolled(ONE, Byte(0x40));
    MulUnrolled(ONE, Byte(0x80));
  }

  /** The eight rounds written out, for products of constants. */
  function Unrolled(a: Byte, b: Byte): Byte {
    var a1, b1 := XTime(a), Half(b);
    var a2, b2 := XTime(a1), Half(b1);
    var a3, b3 := XTime(a2), Half(b2);
    var a4, b4 := XTime(a3), Half(b3);
    var a5, b5 := XTime(a4), Half(b4);
    var a6, b6 := XTime(a5), Half(b5);
    var a7, b7 := XTime(a6), Half(b6);
    Add(Add(Add(Pick(b, a), Pick(b1, a1)), Add(Pick(b2, a2), Pick(b3, a3))),
        Add(Add(Pick(b4, a4), Pick(b5, a5)), Add(Pick(b6, a6), Pick(b7, a7))))
  }

  lemma MulUnrolled(a: Byte, b: Byte)
    ensures Mul(a, b) == Unrolled(a, b)
  {
    hide Add, XTime, Half, Pick;
    var a2, b2 := XTime(XTime(a)), Half(Half(b));
    var a4, b4 := XTime(XTime(a2)), Half(Half(b2));
    var a6, b6 := XTime(XTime(a4)), Half(Half(b4));
    TwoRounds(a, b, 6);
    TwoRounds(a2, b2, 4);
    TwoRounds(a4, b4, 2);
    TwoRounds(a6, b6, 0);
    var p0, p2 := Add(Pick(b, a), Pick(Half(b), XTime(a))), Add(Pick(b2, a2), Pick(Half(b2), XTime(a2)));
    var p4, p6 := Add(Pick(b4, a4), Pick(Half(b4), XTime(a4))), Add(Pick(b6, a6), Pick(Half(b6), XTime(a6)));
    AddZero(p6);
    AddAssoc(p0, p2, Add(p4, p6));
  }

  lemma TwoRounds(a: Byte, b: Byte, n: nat)
    ensures MulFrom(a, b, n + 2) ==
            Add(Add(Pick(b, a), Pick(Half(b), XTime(a))), MulFrom(XTime(XTime(a)), Half(Half(b)), n))
  {
    hide Add, XTime, Half, Pick;
    AddAssoc(Pick(b, a), Pick(Half(b), XTime(a)), MulFrom(XTime(XTime(a)), Half(Half(b)), n));
  }
}
