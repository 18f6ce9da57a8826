/** GF(256) modulo x^8 + x^4 + x^3 + x^2 + 1 (0x11d), as the QR encoder's
    exponent and logarithm tables realise it. A byte is its eight bits. */
module GaloisField {

  datatype Elem = Elem(b7: bool, b6: bool, b5: bool, b4: bool, b3: bool, b2: bool, b1: bool, b0: bool)

  const ZERO := Elem(false, false, false, false, false, false, false, false)
  const ONE := Elem(false, false, false, false, false, false, false, true)

  /** Addition of the field: exclusive or. */
  function Xor(x: Elem, y: Elem): Elem {
    Elem(x.b7 != y.b7, x.b6 != y.b6, x.b5 != y.b5, x.b4 != y.b4,
         x.b3 != y.b3, x.b2 != y.b2, x.b1 != y.b1, x.b0 != y.b0)
  }

  /** Shift left by one; a bit leaving at the top is replaced by 0x1d. */
  function Double(x: Elem): Elem {
    Elem(x.b6, x.b5, x.b4, x.b3 != x.b7, x.b2 != x.b7, x.b1 != x.b7, x.b0, x.b7)
  }

  function Bit(b: bool): nat { if b then 1 else 0 }

  function Nibble(p: bool, q: bool, r: bool, s: bool): (n: nat)
    ensures n < 16 && (n == 0 <==> !p && !q && !r && !s)
  {
    8 * Bit(p) + 4 * Bit(q) + 2 * Bit(r) + Bit(s)
  }

  function ToInt(x: Elem): (n: nat)
    ensures n < 256 && (n == 0 <==> x == ZERO)
  {
    16 * Nibble(x.b7, x.b6, x.b5, x.b4) + Nibble(x.b3, x.b2, x.b1, x.b0)
  }

  lemma ToIntInjective(x: Elem, y: Elem)
    requires ToInt(x) == ToInt(y)
    ensures x == y
  {
    hide Nibble;
    NibbleInjective(x.b7, x.b6, x.b5, x.b4, y.b7, y.b6, y.b5, y.b4);
    NibbleInjective(x.b3, x.b2, x.b1, x.b0, y.b3, y.b2, y.b1, y.b0);
  }

  lemma NibbleInjective(p: bool, q: bool, r: bool, s: bool, p': bool, q': bool, r': bool, s': bool)
    requires Nibble(p, q, r, s) == Nibble(p', q', r', s')
    ensures p == p' && q == q' && r == r' && s == s'
  {
  }

  /** The shift by one, without the bit that leaves at the top. */
  function Shift(x: Elem): Elem {
    Elem(x.b6, x.b5, x.b4, x.b3, x.b2, x.b1, x.b0, false)
  }

  const REDUCTION := Elem(false, false, false, true, true, true, false, true)

  lemma ShiftDoubles(x: Elem)
    ensures ToInt(Shift(x)) + 256 * Bit(x.b7) == 2 * ToInt(x)
  {
    hide Nibble;
    NibbleShift(x.b7, x.b6, x.b5, x.b4, x.b3);
    NibbleShift(x.b3, x.b2, x.b1, x.b0, false);
  }

  lemma NibbleShift(p: bool, q: bool, r: bool, s: bool, t: bool)
    ensures Nibble(q, r, s, t) + 16 * Bit(p) == 2 * Nibble(p, q, r, s) + Bit(t)
  {
  }

  lemma ReductionIs()
    ensures 256 + ToInt(REDUCTION) == 0x11d
  {
  }

  /** Doubling is the shift, reduced by 0x11d when the top bit leaves. */
  lemma DoubleReduces(x: Elem)
    ensures Double(x) == if ToInt(x) < 128 then Shift(x) else Xor(Shift(x), REDUCTION)
  {
    TopBit(x);
  }

  lemma TopBit(x: Elem)
    ensures x.b7 <==> ToInt(x) >= 128
  {
  }

  /** Multiplication by the k-th power of the generator: k doublings. */
  function Times(k: nat, x: Elem): Elem
    decreases k
  {
    if k == 0 then x else Double(Times(k - 1, x))
  }

  function Exp(k: nat): Elem { Times(k, ONE) }

  lemma XorComm(x: Elem, y: Elem)
    ensures Xor(x, y) == Xor(y, x)
  {
  }

  lemma XorAssoc(x: Elem, y: Elem, z: Elem)
    ensures Xor(Xor(x, y), z) == Xor(x, Xor(y, z))
  {
    var l, r := Xor(Xor(x, y), z), Xor(x, Xor(y, z));
    assert l.b7 == r.b7 && l.b6 == r.b6 && l.b5 == r.b5 && l.b4 == r.b4;
    assert l.b3 == r.b3 && l.b2 == r.b2 && l.b1 == r.b1 && l.b0 == r.b0;
  }

  lemma XorCancel(x: Elem, y: Elem)
    ensures Xor(x, ZERO) == x && Xor(x, x) == ZERO
    ensures Xor(x, y) == ZERO <==> x == y
  {
  }

  lemma DoubleLaws(x: Elem, y: Elem)
    ensures Double(Xor(x, y)) == Xor(Double(x), Double(y))
    ensures Double(x) == Double(y) ==> x == y
    ensures Double(x) == ZERO <==> x == ZERO
  {
  }

  lemma {:induction false} TimesXor(k: nat, x: Elem, y: Elem)
    ensures Times(k, Xor(x, y)) == Xor(Times(k, x), Times(k, y))
  {
    hide Xor, Double;
    if k > 0 {
      TimesXor(k - 1, x, y);
      DoubleLaws(Times(k - 1, x), Times(k - 1, y));
    }
  }

  lemma {:induction false} TimesTimes(j: nat, k: nat, x: Elem)
    ensures Times(j, Times(k, x)) == Times(j + k, x)
  {
    hide Double;
    if j > 0 { TimesTimes(j - 1, k, x); }
  }

  lemma {:induction false} TimesZero(k: nat, x: Elem)
    ensures Times(k, x) == ZERO <==> x == ZERO
  {
    if k > 0 {
      TimesZero(k - 1, x);
      DoubleLaws(Times(k - 1, x), ZERO);
    }
  }

  lemma {:induction false} TimesInjective(k: nat, x: Elem, y: Elem)
    requires Times(k, x) == Times(k, y)
    ensures x == y
  {
    if k > 0 {
      DoubleLaws(Times(k - 1, x), Times(k - 1, y));
      TimesInjective(k - 1, x, y);
    }
  }

  // ---- The generator has order 255 ----

  /** Squaring, which is linear: bit i contributes the power 2i. */
  function Square(x: Elem): Elem {
    Elem(x.b6, (x.b3 != x.b5) != x.b6, x.b5, ((x.b2 != x.b4) != x.b5) != x.b7,
         x.b4 != x.b6, ((x.b1 != x.b4) != x.b5) != x.b6, x.b7, ((x.b0 != x.b4) != x.b6) != x.b7)
  }

  lemma SquareDouble(x: Elem)
    ensures Square(Double(x)) == Double(Double(Square(x)))
  {
  }

  lemma {:induction false} SquareExp(k: nat)
    ensures Square(Exp(k)) == Exp(2 * k)
  {
    hide Square, Double;
    if k == 0 {
      SquareOne();
    } else {
      SquareExp(k - 1);
      SquareDouble(Exp(k - 1));
      assert Exp(2 * k) == Double(Times(2 * k - 1, ONE)) == Double(Double(Exp(2 * k - 2)));
    }
  }

  lemma SquareOne()
    ensures Square(ONE) == ONE
  {
  }

  lemma SquareStep(k: nat, x: Elem)
    requires Exp(k) == x
    ensures Exp(2 * k) == Square(x) && Exp(2 * k + 1) == Double(Square(x))
  {
    hide Square, Double;
    SquareExp(k);
    assert Exp(2 * k + 1) == Double(Times(2 * k, ONE));
  }

  lemma FirstPower()
    ensures Exp(1) == Elem(false, false, false, false, false, false, true, false)
  {
    assert Exp(1) == Double(Times(0, ONE));
  }

  /** Powers reached by squaring and doubling. */
  lemma Power15()
    ensures Exp(15) != ONE
  {
    hide Exp, Times;
    FirstPower();
    SquareStep(1, Exp(1));
    assert Exp(3) == Elem(false, false, false, false, true, false, false, false);
    SquareStep(3, Exp(3));
    assert Exp(7) == Elem(true, false, false, false, false, false, false, false);
    SquareStep(7, Exp(7));
    assert Exp(15) == Elem(false, false, true, false, false, true, true, false);
  }

  lemma Power51()
    ensures Exp(51) != ONE
  {
    hide Exp, Times;
    FirstPower();
    SquareStep(1, Exp(1));
    assert Exp(3) == Elem(false, false, false, false, true, false, false, false);
    SquareStep(3, Exp(3));
    assert Exp(6) == Elem(false, true, false, false, false, false, false, false);
    SquareStep(6, Exp(6));
    assert Exp(12) == Elem(true, true, false, false, true, true, false, true);
    SquareStep(12, Exp(12));
    assert Exp(25) == Elem(false, false, false, false, false, false, true, true);
    SquareStep(25, Exp(25));
    assert Exp(51) == Elem(false, false, false, false, true, false, true, false);
  }

  lemma Power85()
    ensures Exp(85) != ONE
  {
    hide Exp, Times;
    FirstPower();
    SquareStep(1, Exp(1));
    assert Exp(2) == Elem(false, false, false, false, false, true, false, false);
    SquareStep(2, Exp(2));
    assert Exp(5) == Elem(false, false, true, false, false, false, false, false);
    SquareStep(5, Exp(5));
    assert Exp(10) == Elem(false, true, true, true, false, true, false, false);
    SquareStep(10, Exp(10));
    assert Exp(21) == Elem(false, true, true, true, false, true, false, true);
    SquareStep(21, Exp(21));
    assert Exp(42) == Elem(true, false, true, true, false, true, false, true);
    SquareStep(42, Exp(42));
    assert Exp(85) == Elem(true, true, false, true, false, true, true, false);
  }

  lemma Power255()
    ensures Exp(255) == ONE
  {
    hide Exp, Times;
    FirstPower();
    SquareStep(1, Exp(1));
    assert Exp(3) == Elem(false, false, false, false, true, false, false, false);
    SquareStep(3, Exp(3));
    assert Exp(7) == Elem(true, false, false, false, false, false, false, false);
    SquareStep(7, Exp(7));
    assert Exp(15) == Elem(false, false, true, false, false, true, true, false);
    SquareStep(15, Exp(15));
    assert Exp(31) == Elem(true, true, false, false, false, false, false, false);
    SquareStep(31, Exp(31));
    assert Exp(63) == Elem(true, false, true, false, false, false, false, true);
    SquareStep(63, Exp(63));
    assert Exp(127) == Elem(true, true, false, false, true, true, false, false);
    SquareStep(127, Exp(127));
    assert Exp(255) == Elem(false, false, false, false, false, false, false, true);
  }

  lemma {:induction false} PeriodMultiple(g: nat, t: nat)
    requires Exp(g) == ONE
    ensures Exp(t * g) == ONE
  {
    hide Double;
    if t > 0 {
      PeriodMultiple(g, t - 1);
      assert t * g == g + (t - 1) * g;
      TimesTimes(g, (t - 1) * g, ONE);
    }
  }

  /** Euclid on two periods: their common measure is a period. */
  lemma {:induction false} PeriodGcd(a: nat, b: nat) returns (g: nat, m: nat, n: nat)
    requires a > 0 && b > 0 && Exp(a) == ONE && Exp(b) == ONE
    ensures 0 < g <= b && Exp(g) == ONE && a == m * g && b == n * g
    decreases a + b
  {
    hide Double, Times;
    if a == b {
      g, m, n := a, 1, 1;
    } else if a > b {
      TimesTimes(a - b, b, ONE);
      g, m, n := PeriodGcd(a - b, b);
      assert (m + n) * g == m * g + n * g;
      m := m + n;
    } else {
      TimesTimes(b - a, a, ONE);
      g, m, n := PeriodGcd(a, b - a);
      assert (m + n) * g == m * g + n * g;
      n := m + n;
    }
  }

  lemma Residue3(m: nat, g: nat)
    requires m * g == 255 && m % 3 != 0
    ensures g % 3 == 0
  {
    if g % 3 != 0 {
      var a, b := m / 3, g / 3;
      if m == 3 * a + 1 {
        ResidueProduct(a, 1, b, g - 3 * b);
      } else {
        ResidueProduct(a, 2, b, g - 3 * b);
      }
    }
  }

  lemma ResidueProduct(a: nat, r: nat, b: nat, s: nat)
    requires (r == 1 || r == 2) && (s == 1 || s == 2)
    ensures (3 * a + r) * (3 * b + s) != 255
  {
    assert (3 * a + r) * (3 * b + s) == 3 * (a * (3 * b + s) + r * b) + r * s;
    NotMultiple(a * (3 * b + s) + r * b, r * s);
  }

  lemma NotMultiple(q: nat, t: nat)
    requires t == 1 || t == 2 || t == 4
    ensures 3 * q + t != 255
  {
  }

  lemma Residue5(m: nat, h: nat)
    requires m * h == 85 && m % 5 != 0
    ensures h % 5 == 0
  {
    var a := m / 5;
    assert m == 5 * a + 1 || m == 5 * a + 2 || m == 5 * a + 3 || m == 5 * a + 4;
    assert m * h == 5 * (a * h) + (m - 5 * a) * h;
  }

  lemma Residue17(m: nat, h: nat)
    requires m * h == 17
    ensures m == 1 || m == 17
  {
    assert h > 0 && m > 0;
    assert m * h >= m;
    assert m == 1 || m == 2 || m == 3 || m == 4 || m == 5 || m == 6 || m == 7 || m == 8 || m == 9 || m == 10 ||
           m == 11 || m == 12 || m == 13 || m == 14 || m == 15 || m == 16 || m == 17;
  }

  /** A divisor of 255 other than 255 divides 85, 51 or 15. */
  lemma Divisors(m: nat, g: nat)
    requires m * g == 255 && m > 1
    ensures (m % 3 == 0 && (m / 3) * g == 85) || (m % 5 == 0 && (m / 5) * g == 51) ||
            (m % 17 == 0 && (m / 17) * g == 15)
  {
    if m % 3 == 0 {
      assert 3 * ((m / 3) * g) == 255;
    } else {
      Residue3(m, g);
      assert 3 * (m * (g / 3)) == 255;
      if m % 5 == 0 {
        assert 5 * ((m / 5) * g) == 255;
      } else {
        Residue5(m, g / 3);
        assert 5 * (m * (g / 3 / 5)) == 85;
        Residue17(m, g / 3 / 5);
        assert 17 * ((m / 17) * g) == 255;
      }
    }
  }

  /** No smaller positive power is one. */
  lemma Order(d: nat)
    requires 0 < d < 255
    ensures Exp(d) != ONE
  {
    hide Times;
    if Exp(d) == ONE {
      Power255();
      var g, m, n := PeriodGcd(255, d);
      Power15();
      Power51();
      Power85();
      Divisors(m, g);
      PeriodMultiple(g, m / 3);
      PeriodMultiple(g, m / 5);
      PeriodMultiple(g, m / 17);
    }
  }

  lemma ExpInjective(i: nat, j: nat)
    requires i < 255 && j < 255 && Exp(i) == Exp(j)
    ensures i == j
  {
    hide Times;
    if i < j {
      TimesTimes(i, j - i, ONE);
      TimesInjective(i, ONE, Exp(j - i));
      Order(j - i);
    } else if j < i {
      TimesTimes(j, i - j, ONE);
      TimesInjective(j, ONE, Exp(i - j));
      Order(i - j);
    }
  }

  lemma ExpNonzero(k: nat)
    ensures Exp(k) != ZERO
  {
    TimesZero(k, ONE);
  }

  lemma ExpPeriod(k: nat)
    ensures Exp(k + 255) == Exp(k)
  {
    hide Times;
    Power255();
    TimesTimes(k, 255, ONE);
  }

  // ---- Every nonzero element is a power ----

  lemma PowerFresh(n: nat, s: set<int>)
    requires n < 255
    requires forall v | v in s :: IsPower(v, n)
    ensures ToInt(Exp(n)) !in s
  {
    hide Times, ToInt;
    var v := ToInt(Exp(n));
    if v in s {
      var k :| 0 <= k < n && ToInt(Exp(k)) == v;
      ToIntInjective(Exp(k), Exp(n));
      ExpInjective(k, n);
    }
  }

  /** A value of the first n powers, by its exponent. */
  ghost predicate IsPower(v: int, n: nat) {
    exists k | 0 <= k < n :: ToInt(Exp(k)) == v
  }

  lemma {:induction false} PowersBelow(n: nat) returns (s: set<int>)
    requires n <= 255
    ensures |s| == n
    ensures forall v | v in s :: 1 <= v <= 255 && IsPower(v, n)
  {
    hide Times, ToInt;
    if n == 0 {
      s := {};
    } else {
      s := PowersBelow(n - 1);
      ExpNonzero(n - 1);
      PowerFresh(n - 1, s);
      var v := ToInt(Exp(n - 1));
      forall u | u in s + {v} ensures 1 <= u <= 255 && IsPower(u, n) {
        if u == v {
          assert IsPower(v, n);
        } else {
          assert IsPower(u, n - 1);
        }
      }
      s := s + {v};
    }
  }

  lemma {:induction false} SubrangeCard(s: set<int>, n: nat)
    requires forall v | v in s :: 1 <= v <= n
    ensures |s| <= n
  {
    if n > 0 {
      SubrangeCard(s - {n}, n - 1);
    } else {
      assert forall v :: v !in s;
      assert s == {};
    }
  }

  lemma {:induction false} FullRange(s: set<int>, n: nat, v: int)
    requires forall x | x in s :: 1 <= x <= n
    requires |s| == n && 1 <= v <= n
    ensures v in s
  {
    if v !in s {
      if n !in s {
        SubrangeCard(s, n - 1);
      } else {
        FullRange(s - {n}, n - 1, v);
      }
    }
  }

  lemma LogExists(x: Elem)
    requires x != ZERO
    ensures exists k | 0 <= k < 255 :: Exp(k) == x
  {
    hide Times, ToInt;
    var s := PowersBelow(255);
    FullRange(s, 255, ToInt(x));
    var k :| 0 <= k < 255 && ToInt(Exp(k)) == ToInt(x);
    ToIntInjective(Exp(k), x);
  }

  /** The discrete logarithm. */
  ghost function Log(x: Elem): (k: nat)
    requires x != ZERO
    ensures k < 255 && Exp(k) == x
  {
    LogExists(x);
    var k :| 0 <= k < 255 && Exp(k) == x;
    k
  }

  // ---- Multiplication ----

  /** The product through logarithms. */
  ghost function Mul(a: Elem, b: Elem): Elem {
    if b == ZERO then ZERO else Times(Log(b), a)
  }

  function Shifted(acc: Elem, bit: bool, a: Elem): Elem {
    Xor(Double(acc), if bit then a else ZERO)
  }

  /** Schoolbook multiplication of polynomials over GF(2) modulo 0x11d: one
      shift per bit of b, adding a where the bit is set. */
  function PolyMul(a: Elem, b: Elem): Elem {
    var h4 := Shifted(Shifted(Shifted(Shifted(ZERO, b.b7, a), b.b6, a), b.b5, a), b.b4, a);
    Shifted(Shifted(Shifted(Shifted(h4, b.b3, a), b.b2, a), b.b1, a), b.b0, a)
  }

  lemma DoubleShifted(acc: Elem, bit: bool, a: Elem)
    ensures Double(Shifted(acc, bit, a)) == Shifted(Double(acc), bit, Double(a))
  {
    DoubleLaws(Double(acc), if bit then a else ZERO);
  }

  /** Four steps of the multiplication. */
  function Shifted4(acc: Elem, p: bool, q: bool, r: bool, s: bool, a: Elem): Elem {
    Shifted(Shifted(Shifted(Shifted(acc, p, a), q, a), r, a), s, a)
  }

  lemma PolyMulHalves(a: Elem, b: Elem)
    ensures PolyMul(a, b) == Shifted4(Shifted4(ZERO, b.b7, b.b6, b.b5, b.b4, a), b.b3, b.b2, b.b1, b.b0, a)
  {
    hide Shifted;
  }

  lemma DoubleShifted4(acc: Elem, p: bool, q: bool, r: bool, s: bool, a: Elem)
    ensures Double(Shifted4(acc, p, q, r, s, a)) == Shifted4(Double(acc), p, q, r, s, Double(a))
  {
    hide Double, Shifted;
    var h := Shifted(acc, p, a);
    var i := Shifted(h, q, a);
    DoubleShifted(acc, p, a);
    DoubleShifted(h, q, a);
    DoubleShifted(i, r, a);
    DoubleShifted(Shifted(i, r, a), s, a);
  }

  lemma DoublePolyMul(a: Elem, b: Elem)
    ensures Double(PolyMul(a, b)) == PolyMul(Double(a), b)
  {
    hide Double, Shifted4, PolyMul;
    DoubleLaws(ZERO, ZERO);
    PolyMulHalves(a, b);
    PolyMulHalves(Double(a), b);
    DoubleShifted4(ZERO, b.b7, b.b6, b.b5, b.b4, a);
    DoubleShifted4(Shifted4(ZERO, b.b7, b.b6, b.b5, b.b4, a), b.b3, b.b2, b.b1, b.b0, a);
  }

  lemma ShiftedOne(acc: Elem, bit: bool)
    requires !acc.b7
    ensures Shifted(acc, bit, ONE) == Elem(acc.b6, acc.b5, acc.b4, acc.b3, acc.b2, acc.b1, acc.b0, bit)
  {
  }

  lemma ShiftedOne4(acc: Elem, p: bool, q: bool, r: bool, s: bool)
    requires !acc.b7 && !acc.b6 && !acc.b5 && !acc.b4
    ensures Shifted(Shifted(Shifted(Shifted(acc, p, ONE), q, ONE), r, ONE), s, ONE) ==
            Elem(acc.b3, acc.b2, acc.b1, acc.b0, p, q, r, s)
  {
    hide Shifted;
    ShiftedOne(acc, p);
    var x := Shifted(acc, p, ONE);
    ShiftedOne(x, q);
    var y := Shifted(x, q, ONE);
    ShiftedOne(y, r);
    ShiftedOne(Shifted(y, r, ONE), s);
  }

  lemma PolyMulOne(b: Elem)
    ensures PolyMul(ONE, b) == b
  {
    hide Shifted;
    ShiftedOne4(ZERO, b.b7, b.b6, b.b5, b.b4);
    ShiftedOne4(Elem(false, false, false, false, b.b7, b.b6, b.b5, b.b4), b.b3, b.b2, b.b1, b.b0);
  }

  lemma PolyMulZero(a: Elem)
    ensures PolyMul(a, ZERO) == ZERO && PolyMul(ZERO, a) == ZERO
  {
    assert forall bit: bool :: Shifted(ZERO, bit, ZERO) == ZERO;
    assert Shifted(ZERO, false, a) == ZERO;
    hide Shifted;
  }

  lemma {:induction false} TimesPolyMul(k: nat, a: Elem, b: Elem)
    ensures Times(k, PolyMul(a, b)) == PolyMul(Times(k, a), b)
  {
    hide PolyMul, Double;
    if k > 0 {
      TimesPolyMul(k - 1, a, b);
      DoublePolyMul(Times(k - 1, a), b);
    }
  }

  /** The table product is the product of the field. */
  lemma MulIsPolyMul(a: Elem, b: Elem)
    ensures Mul(a, b) == PolyMul(a, b)
  {
    hide PolyMul, Times;
    if b == ZERO {
      PolyMulZero(a);
    } else if a == ZERO {
      PolyMulZero(b);
      TimesZero(Log(b), ZERO);
    } else {
      TimesTimes(Log(b), Log(a), ONE);
      TimesTimes(Log(a), Log(b), ONE);
      PolyMulOne(b);
      TimesPolyMul(Log(a), ONE, b);
    }
  }

  lemma MulXor(a: Elem, b: Elem, c: Elem)
    ensures Mul(Xor(a, b), c) == Xor(Mul(a, c), Mul(b, c))
  {
    if c == ZERO {
      XorCancel(ZERO, ZERO);
    } else {
      TimesXor(Log(c), a, b);
    }
  }

  /** The contents of the two tables. */
  ghost predicate Tables(exp: seq<Elem>, log: seq<nat>) {
    |exp| == 512 && |log| == 256 &&
    (forall i | 0 <= i < 512 :: exp[i] == Exp(i)) &&
    (forall x: Elem | x != ZERO :: log[ToInt(x)] < 255 && Exp(log[ToInt(x)]) == x)
  }

  lemma FreshSlot(i: nat)
    requires i < 255
    ensures forall k | 0 <= k < i :: ToInt(Exp(k)) != ToInt(Exp(i))
  {
    hide Times, ToInt;
    forall k | 0 <= k < i ensures ToInt(Exp(k)) != ToInt(Exp(i)) {
      if ToInt(Exp(k)) == ToInt(Exp(i)) {
        ToIntInjective(Exp(k), Exp(i));
        ExpInjective(k, i);
      }
    }
  }

  lemma LogsComplete(log: seq<nat>)
    requires |log| == 256 && forall k | 0 <= k < 255 :: log[ToInt(Exp(k))] == k
    ensures forall x: Elem | x != ZERO :: log[ToInt(x)] < 255 && Exp(log[ToInt(x)]) == x
  {
    hide Times, ToInt;
    forall x: Elem | x != ZERO ensures log[ToInt(x)] < 255 && Exp(log[ToInt(x)]) == x {
      assert log[ToInt(Exp(Log(x)))] == Log(x);
    }
  }

  /** Filling the tables by walking through the powers. */
  method GfInit(exp: array<Elem>, log: array<nat>)
    requires exp.Length == 512 && log.Length == 256
    modifies exp, log
    ensures Tables(exp[..], log[..])
  {
    hide Times, ToInt, Double, Log;
    for j := 0 to 256 {
      log[j] := 0;
    }
    var value := ONE;
    var i := 0;
    assert value == Exp(0) by { PowerZero(); }
    while i < 255
      invariant 0 <= i <= 255 && value == Exp(i)
      invariant forall k | 0 <= k < i :: exp[k] == Exp(k)
      invariant forall k | 0 <= k < i :: log[ToInt(Exp(k))] == k
    {
      FreshSlot(i);
      exp[i] := value;
      log[ToInt(value)] := i;
      PowerNext(i);
      value := Double(value);
      i := i + 1;
    }
    LogsComplete(log[..]);
    while i < 512
      modifies exp
      invariant 255 <= i <= 512
      invariant forall k | 0 <= k < i :: exp[k] == Exp(k)
    {
      ExpPeriod(i - 255);
      exp[i] := exp[i - 255];
      i := i + 1;
    }
  }

  lemma PowerZero()
    ensures Exp(0) == ONE
  {
  }

  lemma PowerNext(k: nat)
    ensures Exp(k + 1) == Double(Exp(k))
  {
  }

  lemma TableProduct(exp: seq<Elem>, log: seq<nat>, a: Elem, b: Elem)
    requires Tables(exp, log) && a != ZERO && b != ZERO
    ensures log[ToInt(a)] < 255 && log[ToInt(b)] < 255
    ensures exp[log[ToInt(a)] + log[ToInt(b)]] == Mul(a, b)
  {
    hide Times, ToInt;
    var la, lb := log[ToInt(a)], log[ToInt(b)];
    ExpInjective(lb, Log(b));
    TimesTimes(lb, la, ONE);
  }

  method GfMul(exp: array<Elem>, log: array<nat>, a: Elem, b: Elem) returns (r: Elem)
    requires Tables(exp[..], log[..])
    ensures r == PolyMul(a, b)
  {
    hide Times, PolyMul, ToInt, Log;
    if a == ZERO || b == ZERO {
      PolyMulZero(a);
      PolyMulZero(b);
      return ZERO;
    }
    MulIsPolyMul(a, b);
    TableProduct(exp[..], log[..], a, b);
    r := exp[log[ToInt(a)] + log[ToInt(b)]];
  }
}
