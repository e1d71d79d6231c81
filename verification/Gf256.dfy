/**
 The field GF(2^8) of section 4.2 of FIPS 197, as crates/kst/src/shamir256.rs computes it:
 shift-and-reduce multiplication, square-and-multiply powers, and a^254 as the inverse. A `u8`
 is its eight bits, least significant first.
 */
module Gf256 {
  import opened Fields

  datatype Byte = Byte(b0: bool, b1: bool, b2: bool, b3: bool, b4: bool, b5: bool, b6: bool, b7: bool)

  const ZERO := Byte(false, false, false, false, false, false, false, false)
  const ONE := Byte(true, false, false, false, false, false, false, false)

  /** `a ^ b`. */
  function Xor(a: Byte, b: Byte): Byte
  {
    Byte(a.b0 != b.b0, a.b1 != b.b1, a.b2 != b.b2, a.b3 != b.b3,
         a.b4 != b.b4, a.b5 != b.b5, a.b6 != b.b6, a.b7 != b.b7)
  }

  /** `a << 1`, dropping the top bit. */
  function ShiftUp(a: Byte): Byte
  {
    Byte(false, a.b0, a.b1, a.b2, a.b3, a.b4, a.b5, a.b6)
  }

  /** `a >> 1`. */
  function ShiftDown(a: Byte): Byte
  {
    Byte(a.b1, a.b2, a.b3, a.b4, a.b5, a.b6, a.b7, false)
  }

  /** 0x1b, the reduction of x^8 modulo x^8 + x^4 + x^3 + x + 1. */
  const REDUCTION := Byte(true, true, false, true, true, false, false, false)

  /** Multiplication by x: the shift, reduced when it overflows. */
  function Xtime(a: Byte): Byte
  {
    Byte(a.b7, a.b0 != a.b7, a.b1, a.b2 != a.b7, a.b3 != a.b7, a.b4, a.b5, a.b6)
  }

  lemma XtimeIsShiftAndReduce(a: Byte)
    ensures Xtime(a) == if a.b7 then Xor(ShiftUp(a), REDUCTION) else ShiftUp(a)
  {
  }

  /** a if the low bit of b is set. */
  function Select(b: Byte, a: Byte): Byte
  {
    if b.b0 then a else ZERO
  }

  /** n rounds of shift-and-reduce. */
  function Rounds(a: Byte, b: Byte, n: nat): Byte
    decreases n
  {
    if n == 0 then ZERO else Xor(Select(b, a), Rounds(Xtime(a), ShiftDown(b), n - 1))
  }

  function Times(a: Byte, b: Byte): Byte
  {
    Rounds(a, b, 8)
  }

  /** `gf_mul`. */
  method GfMul(x: Byte, y: Byte) returns (product: Byte)
    ensures product == Times(x, y)
  {
    hide Xor, Xtime;
    var a, b := x, y;
    product := ZERO;
    XorUnit(Times(x, y));
    for i := 0 to 8
      invariant Xor(product, Rounds(a, b, 8 - i)) == Times(x, y)
    {
      XorAssoc(product, Select(b, a), Rounds(Xtime(a), ShiftDown(b), 7 - i));
      XtimeIsShiftAndReduce(a);
      XorUnit(product);
      if b.b0 {
        product := Xor(product, a);
      }
      var high := a.b7;
      a := ShiftUp(a);
      if high {
        a := Xor(a, REDUCTION);
      }
      b := ShiftDown(b);
    }
    XorUnit(product);
  }

  // -------------------------------------------------------------------- exclusive or

  lemma XorAssoc(a: Byte, b: Byte, c: Byte)
    ensures Xor(Xor(a, b), c) == Xor(a, Xor(b, c))
  {
  }

  lemma XorComm(a: Byte, b: Byte)
    ensures Xor(a, b) == Xor(b, a)
  {
  }

  lemma XorUnit(a: Byte)
    ensures Xor(a, ZERO) == a && Xor(ZERO, a) == a && Xor(a, a) == ZERO
  {
  }

  lemma XorSwap(a: Byte, b: Byte, c: Byte, d: Byte)
    ensures Xor(Xor(a, b), Xor(c, d)) == Xor(Xor(a, c), Xor(b, d))
  {
    hide Xor;
    XorAssoc(a, b, Xor(c, d));
    XorAssoc(b, c, d);
    XorComm(b, c);
    XorAssoc(c, b, d);
    XorAssoc(a, c, Xor(b, d));
  }

  lemma XtimeXor(a: Byte, b: Byte)
    ensures Xtime(Xor(a, b)) == Xor(Xtime(a), Xtime(b))
    ensures Xtime(ZERO) == ZERO
  {
  }

  lemma SelectXor(b: Byte, c: Byte, a: Byte, d: Byte)
    ensures Select(Xor(b, c), a) == Xor(Select(b, a), Select(c, a))
    ensures Select(b, Xor(a, d)) == Xor(Select(b, a), Select(b, d))
  {
    XorUnit(a);
    XorUnit(ZERO);
    assert Xor(b, c).b0 == (b.b0 != c.b0);
    hide Xor;
  }

  lemma ShiftXor(b: Byte, c: Byte)
    ensures ShiftDown(Xor(b, c)) == Xor(ShiftDown(b), ShiftDown(c))
  {
  }

  lemma SelectXtime(b: Byte, a: Byte)
    ensures Select(b, Xtime(a)) == Xtime(Select(b, a))
  {
    XtimeXor(a, a);
  }

  // ----------------------------------------------------------- multiplication is bilinear

  lemma {:induction false} RoundsXorLeft(a: Byte, d: Byte, b: Byte, n: nat)
    ensures Rounds(Xor(a, d), b, n) == Xor(Rounds(a, b, n), Rounds(d, b, n))
    decreases n
  {
    hide Xtime, Select, Xor;
    XorUnit(ZERO);
    if n > 0 {
      var b' := ShiftDown(b);
      XtimeXor(a, d);
      RoundsXorLeft(Xtime(a), Xtime(d), b', n - 1);
      SelectXor(b, b, a, d);
      XorSwap(Select(b, a), Select(b, d), Rounds(Xtime(a), b', n - 1), Rounds(Xtime(d), b', n - 1));
    }
  }

  lemma {:induction false} RoundsXorRight(a: Byte, b: Byte, c: Byte, n: nat)
    ensures Rounds(a, Xor(b, c), n) == Xor(Rounds(a, b, n), Rounds(a, c, n))
    decreases n
  {
    hide Xtime, Select, Xor, ShiftDown;
    XorUnit(ZERO);
    if n > 0 {
      RoundsXorRight(Xtime(a), ShiftDown(b), ShiftDown(c), n - 1);
      SelectXor(b, c, a, a);
      ShiftXor(b, c);
      XorSwap(Select(b, a), Select(c, a), Rounds(Xtime(a), ShiftDown(b), n - 1), Rounds(Xtime(a), ShiftDown(c), n - 1));
    }
  }

  lemma {:induction false} RoundsXtime(a: Byte, b: Byte, n: nat)
    ensures Rounds(Xtime(a), b, n) == Xtime(Rounds(a, b, n))
    decreases n
  {
    hide Xtime, Select, Xor;
    XtimeXor(a, a);
    if n > 0 {
      RoundsXtime(Xtime(a), ShiftDown(b), n - 1);
      SelectXtime(b, a);
      XtimeXor(Select(b, a), Rounds(Xtime(a), ShiftDown(b), n - 1));
    }
  }

  /** b has no bits from position n on. */
  predicate Fits(b: Byte, n: nat)
    decreases n
  {
    if n == 0 then b == ZERO else Fits(ShiftDown(b), n - 1)
  }

  lemma FitsByte(b: Byte)
    ensures Fits(b, 8) && Fits(ShiftDown(b), 7)
  {
    var b1 := ShiftDown(b);
    var b2 := ShiftDown(b1);
    var b3 := ShiftDown(b2);
    var b4 := ShiftDown(b3);
    var b5 := ShiftDown(b4);
    var b6 := ShiftDown(b5);
    var b7 := ShiftDown(b6);
    assert ShiftDown(b7) == ZERO;
    assert Fits(b7, 1);
    assert Fits(b6, 2);
    assert Fits(b5, 3);
    assert Fits(b4, 4);
    assert Fits(b3, 5);
    assert Fits(b2, 6);
    assert Fits(b1, 7);
  }

  /** Rounds beyond the bits of b change nothing. */
  lemma {:induction false} RoundsStable(a: Byte, b: Byte, n: nat)
    requires Fits(b, n)
    ensures Rounds(a, b, n + 1) == Rounds(a, b, n)
    decreases n
  {
    hide Xtime, Xor;
    XorUnit(ZERO);
    if n > 0 {
      RoundsStable(Xtime(a), ShiftDown(b), n - 1);
    }
  }

  /** The Horner form of the product. */
  lemma TimesHorner(a: Byte, b: Byte)
    ensures Times(a, b) == Xor(Select(b, a), Xtime(Times(a, ShiftDown(b))))
  {
    hide Xtime, Xor, Select;
    FitsByte(b);
    RoundsStable(Xtime(a), ShiftDown(b), 7);
    RoundsXtime(a, ShiftDown(b), 8);
  }

  // ------------------------------------------------------------------ the ring laws

  /** b = b0 + x * (b >> 1). */
  lemma LowBit(b: Byte)
    ensures b == Xor(Select(b, ONE), Xtime(ShiftDown(b)))
  {
  }

  lemma {:induction false} RoundsZero(a: Byte, b: Byte, n: nat)
    ensures Rounds(ZERO, b, n) == ZERO && Rounds(a, ZERO, n) == ZERO
    decreases n
  {
    hide Xor, Xtime;
    XtimeXor(ZERO, ZERO);
    XorUnit(ZERO);
    if n > 0 {
      RoundsZero(Xtime(a), ShiftDown(b), n - 1);
      assert ShiftDown(ZERO) == ZERO;
    }
  }

  lemma TimesOne(a: Byte)
    ensures Times(a, ONE) == a
  {
    hide Xor, Xtime;
    TimesHorner(a, ONE);
    assert ShiftDown(ONE) == ZERO;
    RoundsZero(a, a, 8);
    XtimeXor(a, a);
    XorUnit(a);
  }

  lemma {:induction false} OneTimes(b: Byte, n: nat)
    requires Fits(b, n)
    ensures Times(ONE, b) == b
    decreases n
  {
    hide Xor, Xtime, Times;
    TimesHorner(ONE, b);
    LowBit(b);
    if n == 0 {
      TimesZero(ONE);
    } else {
      OneTimes(ShiftDown(b), n - 1);
    }
  }

  lemma TimesZero(a: Byte)
    ensures Times(a, ZERO) == ZERO && Times(ZERO, a) == ZERO
  {
    RoundsZero(a, a, 8);
  }

  /** x^8 = x^4 + x^3 + x + 1. */
  lemma XtimeEight(a: Byte)
    ensures Xtime(Xtime(Xtime(Xtime(Xtime(Xtime(Xtime(Xtime(a))))))))
         == Xor(Xor(a, Xtime(a)), Xor(Xtime(Xtime(Xtime(a))), Xtime(Xtime(Xtime(Xtime(a))))))
  {
  }

  const TOP := Byte(false, false, false, false, false, false, false, true)
  const LOW := Byte(true, false, true, true, false, false, false, false)

  lemma XtimeOverflow(b: Byte)
    requires b.b7
    ensures Xtime(b).b0 && ShiftDown(Xtime(b)) == Xor(b, Xor(TOP, LOW))
  {
  }

  lemma TimesTop(a: Byte)
    ensures Times(a, TOP) == Xtime(Xtime(Xtime(Xtime(Xtime(Xtime(Xtime(a)))))))
  {
    hide Xor, Xtime, Times;
    TimesShifted(a, ShiftDown(TOP));
    TimesShifted(a, ShiftDown(ShiftDown(TOP)));
    TimesShifted(a, ShiftDown(ShiftDown(ShiftDown(TOP))));
    TimesShifted(a, ShiftDown(ShiftDown(ShiftDown(ShiftDown(TOP)))));
    TimesShifted(a, ShiftDown(ShiftDown(ShiftDown(ShiftDown(ShiftDown(TOP))))));
    TimesShifted(a, ShiftDown(ShiftDown(ShiftDown(ShiftDown(ShiftDown(ShiftDown(TOP)))))));
    TimesShifted(a, ShiftDown(ShiftDown(ShiftDown(ShiftDown(ShiftDown(ShiftDown(ShiftDown(TOP))))))));
    TimesOne(a);
  }

  /** Multiplying by 2c, with no overflow, is x times multiplying by c. */
  lemma TimesShifted(a: Byte, c: Byte)
    requires !c.b7
    ensures Times(a, ShiftUp(c)) == Xtime(Times(a, c))
  {
    hide Xor, Xtime, Times;
    TimesHorner(a, ShiftUp(c));
    assert ShiftDown(ShiftUp(c)) == c;
    XorUnit(Xtime(Times(a, c)));
  }

  lemma TimesLow(a: Byte)
    ensures Times(a, LOW) == Xor(a, Xor(Xtime(Xtime(a)), Xtime(Xtime(Xtime(a)))))
  {
    hide Xor, Xtime, Times;
    var c := Byte(true, true, false, false, false, false, false, false);
    TimesOne(a);
    TimesHorner(a, c);
    assert ShiftDown(c) == ONE;
    assert Times(a, c) == Xor(a, Xtime(a));
    TimesShifted(a, c);
    TimesHorner(a, LOW);
    assert ShiftDown(LOW) == ShiftUp(c);
    XtimeXor(a, Xtime(a));
    XtimeXor(Xtime(a), Xtime(Xtime(a)));
  }

  /** Multiplying by x on the right. */
  lemma TimesXtime(a: Byte, b: Byte)
    ensures Times(a, Xtime(b)) == Xtime(Times(a, b))
  {
    hide Xor, Times;
    if !b.b7 {
      assert Xtime(b) == ShiftUp(b);
      TimesShifted(a, b);
    } else {
      XtimeOverflow(b);
      TimesHorner(a, Xtime(b));
      hide Xtime;
      TimesXorRight(a, b, Xor(TOP, LOW));
      TimesXorRight(a, TOP, LOW);
      TimesTop(a);
      TimesLow(a);
      OverflowCancels(a, Times(a, b));
    }
  }

  lemma TimesXorRight(a: Byte, b: Byte, c: Byte)
    ensures Times(a, Xor(b, c)) == Xor(Times(a, b), Times(a, c))
  {
    RoundsXorRight(a, b, c, 8);
  }

  lemma OverflowCancels(a: Byte, t: Byte)
    ensures var x2 := Xtime(Xtime(a));
            var x3 := Xtime(x2);
            var x7 := Xtime(Xtime(Xtime(Xtime(x3))));
            Xor(a, Xtime(Xor(t, Xor(x7, Xor(a, Xor(x2, x3)))))) == Xtime(t)
  {
    hide Xor, Xtime;
    var x1 := Xtime(a);
    var x2 := Xtime(x1);
    var x3 := Xtime(x2);
    var x4 := Xtime(x3);
    var x7 := Xtime(Xtime(Xtime(x4)));
    var low := Xor(a, Xor(x2, x3));
    XtimeEight(a);
    XtimeXor(t, Xor(x7, low));
    XtimeXor(x7, low);
    XtimeXor(a, Xor(x2, x3));
    XtimeXor(x2, x3);
    CancelFive(a, x1, x3, x4, Xtime(t));
  }

  /** a + (t + ((a + b + c + d) + (b + (c + d)))) = t. */
  lemma CancelFive(a: Byte, b: Byte, c: Byte, d: Byte, t: Byte)
    ensures Xor(a, Xor(t, Xor(Xor(Xor(a, b), Xor(c, d)), Xor(b, Xor(c, d))))) == t
  {
    hide Xor;
    var e := Xor(c, d);
    XorAssoc(a, b, e);
    XorAssoc(a, Xor(b, e), Xor(b, e));
    XorUnit(Xor(b, e));
    XorUnit(a);
    XorComm(t, a);
    XorAssoc(a, a, t);
    XorUnit(t);
  }

  lemma {:induction false} Commutative(a: Byte, b: Byte, n: nat)
    requires Fits(b, n)
    ensures Times(a, b) == Times(b, a)
    decreases n
  {
    hide Xor, Xtime, Times;
    if n == 0 {
      TimesZero(a);
    } else {
      var c := ShiftDown(b);
      Commutative(a, c, n - 1);
      TimesHorner(a, b);
      LowBit(b);
      TimesXorLeft(Select(b, ONE), Xtime(c), a);
      TimesXtimeLeft(c, a);
      FitsByte(a);
      OneTimes(a, 8);
      TimesZero(a);
    }
  }

  lemma TimesXorLeft(a: Byte, b: Byte, c: Byte)
    ensures Times(Xor(a, b), c) == Xor(Times(a, c), Times(b, c))
  {
    RoundsXorLeft(a, b, c, 8);
  }

  lemma TimesXtimeLeft(a: Byte, b: Byte)
    ensures Times(Xtime(a), b) == Xtime(Times(a, b))
  {
    RoundsXtime(a, b, 8);
  }

  lemma {:induction false} Associative(a: Byte, b: Byte, c: Byte, n: nat)
    requires Fits(c, n)
    ensures Times(Times(a, b), c) == Times(a, Times(b, c))
    decreases n
  {
    hide Xor, Xtime, Times;
    TimesZero(a);
    TimesZero(b);
    TimesZero(Times(a, b));
    if n > 0 {
      var d := ShiftDown(c);
      Associative(a, b, d, n - 1);
      TimesHorner(Times(a, b), c);
      TimesHorner(b, c);
      TimesXorRight(a, Select(c, b), Xtime(Times(b, d)));
      TimesXtime(a, Times(b, d));
    }
  }

  lemma TimesComm(a: Byte, b: Byte)
    ensures Times(a, b) == Times(b, a)
  {
    FitsByte(b);
    Commutative(a, b, 8);
  }

  lemma TimesAssoc(a: Byte, b: Byte, c: Byte)
    ensures Times(Times(a, b), c) == Times(a, Times(b, c))
  {
    FitsByte(c);
    Associative(a, b, c, 8);
  }

  // ---------------------------------------------------------------- squaring is linear

  /** a^2, bit by bit. */
  function SquareBits(a: Byte): Byte
  {
    Byte((a.b0 != a.b4) != a.b6,
         (a.b4 != a.b6) != a.b7,
         a.b1 != a.b5,
         ((a.b4 != a.b5) != a.b6) != a.b7,
         (a.b2 != a.b4) != a.b7,
         a.b5 != a.b6,
         a.b3 != a.b5,
         a.b6 != a.b7)
  }

  /** a^4, bit by bit. */
  function FourthBits(a: Byte): Byte
  {
    Byte(((((a.b0 != a.b2) != a.b3) != a.b5) != a.b6) != a.b7,
         (((a.b2 != a.b3) != a.b4) != a.b5) != a.b6,
         (a.b4 != a.b5) != a.b7,
         (a.b2 != a.b3) != a.b4,
         (((a.b1 != a.b2) != a.b4) != a.b5) != a.b6,
         a.b3 != a.b6,
         a.b4 != a.b7,
         ((a.b3 != a.b5) != a.b6) != a.b7)
  }

  /** a^16, bit by bit. */
  function SixteenthBits(a: Byte): Byte
  {
    Byte(((a.b0 != a.b4) != a.b5) != a.b6,
         a.b1,
         (((a.b1 != a.b2) != a.b4) != a.b6) != a.b7,
         (((a.b1 != a.b3) != a.b4) != a.b6) != a.b7,
         (a.b1 != a.b5) != a.b6,
         (a.b2 != a.b3) != a.b7,
         (((a.b1 != a.b2) != a.b3) != a.b4) != a.b7,
         (a.b2 != a.b3) != a.b5)
  }

  lemma SquareHorner(a: Byte)
    ensures SquareBits(a) == Xor(Select(a, ONE), Xtime(Xtime(SquareBits(ShiftDown(a)))))
  {
  }

  /** (u + v)^2 = u^2 + v^2. */
  lemma SquareXor(u: Byte, v: Byte)
    ensures Times(Xor(u, v), Xor(u, v)) == Xor(Times(u, u), Times(v, v))
  {
    hide Xor, Times;
    TimesXorLeft(u, v, Xor(u, v));
    TimesXorRight(u, u, v);
    TimesXorRight(v, u, v);
    TimesComm(u, v);
    XorComm(Times(u, v), Times(v, v));
    XorSwap(Times(u, u), Times(u, v), Times(u, v), Times(v, v));
    XorSwap(Times(u, u), Times(u, v), Times(v, v), Times(u, v));
    XorUnit(Times(u, v));
    XorUnit(Xor(Times(u, u), Times(v, v)));
  }

  lemma {:induction false} SquareIsBits(a: Byte, n: nat)
    requires Fits(a, n)
    ensures Times(a, a) == SquareBits(a)
    decreases n
  {
    hide Xor, Xtime, Times;
    if n == 0 {
      TimesZero(ZERO);
    } else {
      var d := ShiftDown(a);
      SquareIsBits(d, n - 1);
      hide SquareBits;
      SquareHorner(a);
      LowBit(a);
      SquareXor(Select(a, ONE), Xtime(d));
      TimesXtime(Xtime(d), d);
      TimesXtimeLeft(d, d);
      TimesOne(ONE);
      TimesZero(ZERO);
    }
  }

  lemma FourthIsSquareTwice(a: Byte)
    ensures SquareBits(SquareBits(a)) == FourthBits(a)
  {
  }

  lemma SixteenthIsFourthTwice(a: Byte)
    ensures FourthBits(FourthBits(a)) == SixteenthBits(a)
  {
  }

  lemma FrobeniusCloses(a: Byte)
    ensures SixteenthBits(SixteenthBits(a)) == a
  {
  }

  lemma IdempotentsTrivial(e: Byte)
    requires SquareBits(e) == e
    ensures e == ZERO || e == ONE
  {
  }

  // ------------------------------------------------------------------ powers and inverse

  function Power(a: Byte, e: nat): Byte
  {
    if e == 0 then ONE else Times(a, Power(a, e - 1))
  }

  lemma {:induction false} PowerAdd(a: Byte, m: nat, n: nat)
    ensures Power(a, m + n) == Times(Power(a, m), Power(a, n))
  {
    hide Times;
    if m == 0 {
      FitsByte(Power(a, n));
      OneTimes(Power(a, n), 8);
    } else {
      PowerAdd(a, m - 1, n);
      TimesAssoc(a, Power(a, m - 1), Power(a, n));
      assert m + n - 1 == m - 1 + n;
    }
  }

  lemma {:induction false} PowerSquare(a: Byte, e: nat)
    ensures Power(Times(a, a), e) == Power(a, 2 * e)
  {
    hide Times;
    if e > 0 {
      PowerSquare(a, e - 1);
      TimesAssoc(a, a, Power(a, 2 * e - 2));
      assert Power(a, 2 * e) == Times(a, Power(a, 2 * e - 1));
      assert Power(a, 2 * e - 1) == Times(a, Power(a, 2 * e - 2));
    }
  }

  /** `gf_pow`: square and multiply. */
  method GfPow(a: Byte, exponent: nat) returns (result: Byte)
    ensures result == Power(a, exponent)
  {
    hide Times;
    result := ONE;
    var base, e := a, exponent;
    FitsByte(Power(a, exponent));
    OneTimes(Power(a, exponent), 8);
    while e > 0
      invariant Times(result, Power(base, e)) == Power(a, exponent)
    {
      PowerSquare(base, e / 2);
      if e % 2 == 1 {
        TimesAssoc(result, base, Power(base, e - 1));
        result := GfMul(result, base);
      }
      base := GfMul(base, base);
      e := e / 2;
    }
    TimesOne(result);
  }

  /** `gf_inv`. */
  function Inverse(a: Byte): Byte
  {
    Power(a, 254)
  }

  lemma PowerDouble(a: Byte, e: nat)
    ensures Power(a, 2 * e) == SquareBits(Power(a, e))
  {
    hide Times, SquareBits;
    PowerAdd(a, e, e);
    FitsByte(Power(a, e));
    SquareIsBits(Power(a, e), 8);
  }

  /** Every byte satisfies a^256 = a. */
  lemma PowerOrder(a: Byte)
    ensures Power(a, 256) == a
  {
    hide Times, SquareBits, FourthBits, SixteenthBits;
    assert Power(a, 1) == a by { TimesOne(a); assert Power(a, 0) == ONE; }
    hide Power;
    PowerDouble(a, 1);
    PowerDouble(a, 2);
    PowerDouble(a, 4);
    PowerDouble(a, 8);
    PowerDouble(a, 16);
    PowerDouble(a, 32);
    PowerDouble(a, 64);
    PowerDouble(a, 128);
    FourthIsSquareTwice(a);
    FourthIsSquareTwice(FourthBits(a));
    SixteenthIsFourthTwice(a);
    var b := SixteenthBits(a);
    FourthIsSquareTwice(b);
    FourthIsSquareTwice(FourthBits(b));
    SixteenthIsFourthTwice(b);
    FrobeniusCloses(a);
  }

  /** a^254 inverts every nonzero byte: a^255 is an idempotent, and not zero. */
  lemma InverseLaw(a: Byte)
    requires a != ZERO
    ensures Times(a, Inverse(a)) == ONE
  {
    hide Times, Power, SquareBits;
    var e := Power(a, 255);
    PowerOne(a);
    PowerOrder(a);
    PowerAdd(a, 1, 254);
    PowerAdd(a, 1, 255);
    PowerAdd(a, 254, 256);
    PowerAdd(a, 254, 1);
    PowerAdd(a, 255, 255);
    FitsByte(e);
    SquareIsBits(e, 8);
    IdempotentsTrivial(e);
    TimesZero(a);
  }

  lemma PowerOne(a: Byte)
    ensures Power(a, 1) == a
  {
    hide Times;
    TimesOne(a);
    assert Power(a, 0) == ONE;
  }

  // ------------------------------------------------------------------------ the field

  function Gf(): Field<Byte>
  {
    Field(ZERO, ONE, (a, b) => Xor(a, b), (a, b) => Times(a, b), a => a, a => Inverse(a), a => true)
  }

  lemma GfCommutes()
    ensures Commutes(Gf())
  {
    hide Xor, Times, Inverse;
    forall a, b
      ensures Gf().add(a, b) == Gf().add(b, a) && Gf().mul(a, b) == Gf().mul(b, a)
    {
      XorComm(a, b);
      TimesComm(a, b);
    }
  }

  lemma GfAssociates()
    ensures Associates(Gf())
  {
    hide Xor, Times, Inverse;
    var F := Gf();
    forall a, b, c
      ensures F.add(F.add(a, b), c) == F.add(a, F.add(b, c))
    {
      XorAssoc(a, b, c);
    }
    forall a, b, c
      ensures F.mul(F.mul(a, b), c) == F.mul(a, F.mul(b, c))
    {
      TimesAssoc(a, b, c);
    }
  }

  lemma GfDistributes()
    ensures Distributes(Gf())
  {
    hide Xor, Times, Inverse;
    var F := Gf();
    forall a, b, c
      ensures F.mul(a, F.add(b, c)) == F.add(F.mul(a, b), F.mul(a, c))
    {
      TimesXorRight(a, b, c);
    }
  }

  lemma GfUnits()
    ensures Units(Gf())
  {
    hide Xor, Times, Inverse;
    var F := Gf();
    forall a
      ensures F.add(a, F.zero) == a && F.mul(a, F.one) == a && F.add(a, F.neg(a)) == F.zero
      ensures a != F.zero ==> F.mul(a, F.inv(a)) == F.one
    {
      XorUnit(a);
      TimesOne(a);
      if a != ZERO { InverseLaw(a); }
    }
  }

  /** GF(2^8) is a field. */
  lemma GfLawful()
    ensures Lawful(Gf())
  {
    hide Xor, Times, Inverse, Commutes, Associates, Distributes, Units;
    GfCommutes();
    GfAssociates();
    GfDistributes();
    GfUnits();
    assert ZERO != ONE;
  }
}
