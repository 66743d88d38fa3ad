module GfPowers {
  import opened Gf

  // ---- the powers of alpha = x ---------------------------------------------

  function Exp(i: nat): gf
  {
    if i == 0 then 1 else XTime(Exp(i - 1))
  }

  lemma {:induction false} ExpAdd(i: nat, j: nat)
    ensures Exp(i + j) == Mul(Exp(i), Exp(j))
  {
    hide XTime, Mul;
    if i == 0 {
      MulOneLeft(Exp(j));
    } else {
      ExpAdd(i - 1, j);
      MulXTimeLeft(Exp(i - 1), Exp(j));
    }
  }

  // ---- alpha has order 255 --------------------------------------------------
  // Computed on bits, lowest first, where multiplication by x is a shift with feedback.

  datatype Bits = Bits(b0: bool, b1: bool, b2: bool, b3: bool, b4: bool, b5: bool, b6: bool, b7: bool)

  function Digit(b: bool, rest: nat): nat
  {
    2 * rest + if b then 1 else 0
  }

  // The bits above the lowest one, and the whole byte.
  function High(t: Bits): nat
  {
    Digit(t.b1, Digit(t.b2, Digit(t.b3, Digit(t.b4, Digit(t.b5, Digit(t.b6, Digit(t.b7, 0)))))))
  }

  function Val(t: Bits): nat
  {
    Digit(t.b0, High(t))
  }

  function Shift(t: Bits): Bits
  {
    Bits(t.b7, t.b0, t.b1 != t.b7, t.b2 != t.b7, t.b3 != t.b7, t.b4, t.b5, t.b6)
  }

  function Shift4(t: Bits): Bits { Shift(Shift(Shift(Shift(t)))) }

  function Shift17(t: Bits): Bits { Shift(Shift4(Shift4(Shift4(Shift4(t))))) }

  lemma HalfDigit(b: bool, p: nat)
    ensures Digit(b, p) / 2 == p && Digit(b, p) % 2 == if b then 1 else 0
  {}

  lemma XorDigit(c: bool, p: nat, d: bool, q: nat)
    ensures Xor(Digit(c, p), Digit(d, q)) == Digit(c != d, Xor(p, q))
  {
    hide Xor;
    HalfDigit(c, p);
    HalfDigit(d, q);
    XorHalf(Digit(c, p), Digit(d, q));
  }

  lemma DigitValues()
    ensures Digit(true, 14) == 29 && Digit(false, 7) == 14 && Digit(true, 3) == 7
    ensures Digit(true, 1) == 3 && Digit(true, 0) == 1 && Digit(false, 0) == 0
  {}

  lemma TopBit(t: Bits)
    requires t.b7
    ensures Val(t) == 128 + Val(t.(b7 := false))
  {}

  lemma ValBound(t: Bits)
    ensures Val(t) < 256
    ensures !t.b7 ==> Val(t) < 128
  {}

  lemma XTimeShift(t: Bits)
    ensures Val(t) < 256 && XTime(Val(t)) == Val(Shift(t))
  {
    hide Xor, Digit, Val, High;
    ValBound(t);
    ShiftLow(t.(b7 := false));
    if t.b7 {
      TopBit(t);
      ValBound(t.(b7 := false));
      XorFeedback(t);
    } else {
      assert t == t.(b7 := false);
    }
  }

  lemma ShiftLow(t: Bits)
    requires !t.b7
    ensures Val(Shift(t)) == 2 * Val(t)
  {
    DoubleDigit(Val(t));
    hide Digit;
    DigitValues();
  }

  lemma DoubleDigit(p: nat)
    ensures Digit(false, p) == 2 * p
  {}

  lemma XorFeedback(t: Bits)
    requires t.b7
    ensures Xor(2 * Val(t.(b7 := false)), 29) == Val(Shift(t))
  {
    hide Xor, Digit;
    DigitValues();
    var p4 := Digit(t.b4, Digit(t.b5, Digit(t.b6, 0)));
    XorZero(p4);
    XorDigit(t.b3, p4, true, 0);
    XorDigit(t.b2, Digit(t.b3, p4), true, 1);
    XorDigit(t.b1, Digit(t.b2, Digit(t.b3, p4)), true, 3);
    XorDigit(t.b0, Digit(t.b1, Digit(t.b2, Digit(t.b3, p4))), false, 7);
    DoubleDigit(Val(t.(b7 := false)));
    XorDigit(false, Val(t.(b7 := false)), true, 14);
  }

  lemma Walk(i: nat, t: Bits)
    requires Exp(i) == Val(t)
    ensures Exp(i + 1) == Val(Shift(t))
  {
    hide XTime, Val, Shift;
    XTimeShift(t);
  }

  lemma Walk4(i: nat, t: Bits)
    requires Exp(i) == Val(t)
    ensures Exp(i + 4) == Val(Shift4(t))
  {
    hide Exp, Val, Shift;
    Walk(i, t);
    Walk(i + 1, Shift(t));
    Walk(i + 2, Shift(Shift(t)));
    Walk(i + 3, Shift(Shift(Shift(t))));
  }

  lemma Walk17(i: nat, t: Bits)
    requires Exp(i) == Val(t)
    ensures Exp(i + 17) == Val(Shift17(t))
  {
    hide Exp, Val, Shift, Shift4;
    Walk4(i, t);
    Walk4(i + 4, Shift4(t));
    Walk4(i + 8, Shift4(Shift4(t)));
    Walk4(i + 12, Shift4(Shift4(Shift4(t))));
    Walk(i + 16, Shift4(Shift4(Shift4(Shift4(t)))));
  }

  lemma ExpFirst()
    ensures Exp(0) == Val(Bits(true, false, false, false, false, false, false, false)) && Exp(2) == 4
  {}

  lemma Exp17()
    ensures Exp(17) == Val(Bits(false, false, false, true, true, false, false, true))
  {
    hide Exp, Val;
    ExpFirst();
    Walk17(0, Bits(true, false, false, false, false, false, false, false));
  }

  lemma Exp51()
    requires Exp(17) == Val(Bits(false, false, false, true, true, false, false, true))
    ensures Exp(51) == Val(Bits(false, true, false, true, false, false, false, false))
  {
    hide Exp, Val;
    Walk17(17, Bits(false, false, false, true, true, false, false, true));
    Walk17(34, Bits(false, true, true, true, false, false, true, false));
  }

  lemma Exp85()
    requires Exp(51) == Val(Bits(false, true, false, true, false, false, false, false))
    ensures Exp(85) == Val(Bits(false, true, true, false, true, false, true, true))
  {
    hide Exp, Val;
    Walk17(51, Bits(false, true, false, true, false, false, false, false));
    Walk17(68, Bits(true, false, false, true, true, false, false, true));
  }

  lemma Exp119()
    requires Exp(85) == Val(Bits(false, true, true, false, true, false, true, true))
    ensures Exp(119) == Val(Bits(true, true, false, false, true, false, false, true))
  {
    hide Exp, Val;
    Walk17(85, Bits(false, true, true, false, true, false, true, true));
    Walk17(102, Bits(false, false, true, false, false, false, true, false));
  }

  lemma Exp153()
    requires Exp(119) == Val(Bits(true, true, false, false, true, false, false, true))
    ensures Exp(153) == Val(Bits(false, true, false, false, true, false, false, true))
  {
    hide Exp, Val;
    Walk17(119, Bits(true, true, false, false, true, false, false, true));
    Walk17(136, Bits(true, true, true, true, false, false, true, false));
  }

  lemma Exp187()
    requires Exp(153) == Val(Bits(false, true, false, false, true, false, false, true))
    ensures Exp(187) == Val(Bits(false, false, true, true, true, false, true, true))
  {
    hide Exp, Val;
    Walk17(153, Bits(false, true, false, false, true, false, false, true));
    Walk17(170, Bits(true, true, true, false, true, false, true, true));
  }

  lemma Exp221()
    requires Exp(187) == Val(Bits(false, false, true, true, true, false, true, true))
    ensures Exp(221) == Val(Bits(true, false, true, false, false, false, true, false))
  {
    hide Exp, Val;
    Walk17(187, Bits(false, false, true, true, true, false, true, true));
    Walk17(204, Bits(true, false, true, true, true, false, true, true));
  }

  lemma Exp255()
    requires Exp(221) == Val(Bits(true, false, true, false, false, false, true, false))
    ensures Exp(255) == Val(Bits(true, false, false, false, false, false, false, false))
  {
    hide Exp, Val;
    Walk17(221, Bits(true, false, true, false, false, false, true, false));
    Walk17(238, Bits(true, true, false, true, false, false, false, false));
  }

  lemma ExpValues()
    ensures Exp(17) == 152 && Exp(51) == 10 && Exp(85) == 214 && Exp(255) == 1
  {
    hide Exp;
    Exp17();
    Exp51();
    Exp85();
    Exp119();
    Exp153();
    Exp187();
    Exp221();
    Exp255();
  }

  lemma {:induction false} ExpNonzero(i: nat)
    ensures Exp(i) != 0
  {
    hide XTime;
    if i != 0 {
      ExpNonzero(i - 1);
      XTimeNonzero(Exp(i - 1));
    }
  }

  // Powers of an element whose power m is 1.
  lemma {:induction false} ExpMultiple(m: nat, q: nat)
    requires Exp(m) == 1
    ensures Exp(m * q) == 1
  {
    hide Exp;
    if q == 0 {
      ExpFirst();
    } else {
      ExpMultiple(m, q - 1);
      assert m * q == m + m * (q - 1);
      ExpAdd(m, m * (q - 1));
      MulOneLeft(1);
    }
  }

  lemma SmallDivisor(d: nat, q: nat)
    requires d * q == 255 && d < 16
    ensures (d == 1 && q == 255) || (d == 3 && q == 85) || (d == 5 && q == 51) || (d == 15 && q == 17)
  {
    assert d == 0 || d == 1 || d == 2 || d == 3 || d == 4 || d == 5 || d == 6 || d == 7
        || d == 8 || d == 9 || d == 10 || d == 11 || d == 12 || d == 13 || d == 14 || d == 15;
  }

  lemma BigProduct(d: nat, q: nat)
    requires d >= 16 && q >= 16
    ensures d * q >= 256
  {
    assert d * q >= 16 * q;
  }

  // A proper divisor of 255 divides 85, 51 or 15.
  lemma ProperDivisor(d: nat, q: nat) returns (e: nat, p: nat)
    requires d * q == 255 && d < 255
    ensures d * p == e && (e == 85 || e == 51 || e == 15)
  {
    if d < 16 {
      SmallDivisor(d, q);
      e, p := if d == 15 then 15 else if d == 5 then 85 else 51, if d == 15 then 1 else if d == 1 then 51 else 17;
    } else {
      if q >= 16 {
        BigProduct(d, q);
      }
      assert q * d == 255;
      SmallDivisor(q, d);
      e, p := if d == 17 then 51 else d, if d == 17 then 3 else 1;
    }
  }

  lemma ProperPowers(e: nat)
    requires e == 85 || e == 51 || e == 15
    ensures Exp(e) != 1
  {
    hide Exp;
    ExpValues();
    ExpFirst();
    ExpAdd(15, 2);
    MulOneLeft(4);
  }

  lemma ExpRemainder(d: nat) returns (q: nat, r: nat)
    requires 0 < d && Exp(d) == 1
    ensures d * q + r == 255 && r < d && Exp(r) == 1
  {
    hide *;
    q, r := 255 / d, 255 % d;
    ExpMultiple(d, q);
    ExpAdd(d * q, r);
    ExpValues();
    MulOneLeft(Exp(r));
  }

  // alpha is primitive: no power below the 255th is 1.
  lemma {:induction false} ExpOrder(d: nat)
    requires 0 < d < 255
    ensures Exp(d) != 1
  {
    hide *;
    if Exp(d) == 1 {
      var q, r := ExpRemainder(d);
      if r > 0 {
        ExpOrder(r);
      } else {
        var e, p := ProperDivisor(d, q);
        ExpMultiple(d, p);
        ProperPowers(e);
      }
    }
  }

  lemma ExpPeriod(i: nat)
    ensures Exp(i + 255) == Exp(i)
  {
    hide *;
    ExpValues();
    ExpAdd(255, i);
    MulOneLeft(Exp(i));
  }

  lemma {:induction false} ExpMod(i: nat)
    ensures Exp(i % 255) == Exp(i)
  {
    hide *;
    if i >= 255 {
      ExpMod(i - 255);
      ExpPeriod(i - 255);
    }
  }

  lemma ExpInjective(i: nat, j: nat)
    requires i < j < 255
    ensures Exp(i) != Exp(j)
  {
    hide *;
    if Exp(i) == Exp(j) {
      // multiply by the (255 - i)-th power
      ExpAdd(i, 255 - i);
      ExpAdd(j, 255 - i);
      ExpValues();
      ExpPeriod(j - i);
      ExpOrder(j - i);
    }
  }

  // ---- logarithms and inverses ----------------------------------------------

  ghost function Powers(n: nat): set<int>
  {
    if n == 0 then {} else Powers(n - 1) + {Exp(n - 1)}
  }

  lemma {:induction false} PowersHas(n: nat, i: nat)
    requires i < n
    ensures Exp(i) in Powers(n)
  {
    hide Exp;
    if i < n - 1 {
      PowersHas(n - 1, i);
    }
  }

  lemma {:induction false} PowersMember(n: nat, a: int)
    requires a in Powers(n)
    ensures exists i: nat :: i < n && Exp(i) == a
  {
    hide Exp;
    if a != Exp(n - 1) {
      PowersMember(n - 1, a);
    }
  }

  lemma {:induction false} PowersSize(n: nat)
    requires n <= 255
    ensures |Powers(n)| == n
  {
    hide Exp;
    if n != 0 {
      PowersSize(n - 1);
      if Exp(n - 1) in Powers(n - 1) {
        PowersMember(n - 1, Exp(n - 1));
        var i: nat :| i < n - 1 && Exp(i) == Exp(n - 1);
        ExpInjective(i, n - 1);
      }
    }
  }

  ghost function Range(n: nat): set<int>
    ensures |Range(n)| == n
    ensures forall i :: i in Range(n) <==> 1 <= i <= n
  {
    if n == 0 then {} else Range(n - 1) + {n}
  }

  lemma SubsetOfSameSize(s: set<int>, t: set<int>)
    requires s <= t && |s| == |t|
    ensures s == t
  {
    assert t == s + (t - s);
    assert |t - s| == 0;
  }

  // Every nonzero element is a power of alpha.
  lemma LogExists(a: gf)
    requires a != 0
    ensures exists i: nat :: i < 255 && Exp(i) == a
  {
    hide Exp;
    PowersSize(255);
    forall b | b in Powers(255)
      ensures b in Range(255)
    {
      PowersMember(255, b);
      var i: nat :| i < 255 && Exp(i) == b;
      ExpNonzero(i);
    }
    SubsetOfSameSize(Powers(255), Range(255));
    PowersMember(255, a);
  }

  ghost function Log(a: gf): (i: nat)
    requires a != 0
    ensures i < 255 && Exp(i) == a
  {
    LogExists(a);
    var i: nat :| i < 255 && Exp(i) == a;
    i
  }

  lemma LogUnique(i: nat)
    requires i < 255
    ensures Exp(i) != 0 && Log(Exp(i)) == i
  {
    hide Exp;
    ExpNonzero(i);
    var j := Log(Exp(i));
    if i < j {
      ExpInjective(i, j);
    } else if j < i {
      ExpInjective(j, i);
    }
  }

  // The reciprocal, with the value 0 at 0 that the table of inverses holds there.
  ghost function Inv(a: gf): gf
  {
    if a == 0 then 0 else Exp(255 - Log(a))
  }

  lemma InvLaw(a: gf)
    requires a != 0
    ensures Mul(a, Inv(a)) == 1 && Mul(Inv(a), a) == 1 && Inv(a) != 0
  {
    hide Exp, Mul;
    ExpAdd(Log(a), 255 - Log(a));
    ExpValues();
    MulComm(a, Inv(a));
    ExpNonzero(255 - Log(a));
  }

  lemma MulInvCancel(a: gf, b: gf)
    requires a != 0
    ensures Mul(Inv(a), Mul(a, b)) == b && Mul(a, Mul(Inv(a), b)) == b
  {
    hide *;
    InvLaw(a);
    MulAssoc(Inv(a), a, b);
    MulAssoc(a, Inv(a), b);
    MulOneLeft(b);
  }

  lemma MulZero(a: gf)
    ensures Mul(a, 0) == 0 && Mul(0, a) == 0 && Mul(1, a) == a && Mul(a, 1) == a
  {
    hide *;
    MulUnfold(a, 0);
    MulZeroLeft(a);
    MulOneLeft(a);
    MulComm(a, 1);
  }

  // The field has no zero divisors.
  lemma MulNonzero(a: gf, b: gf)
    requires a != 0 && b != 0
    ensures Mul(a, b) != 0
  {
    hide *;
    MulInvCancel(a, b);
    MulZero(Inv(a));
  }

  lemma AddZero(a: gf, b: gf)
    ensures Add(a, b) == 0 <==> a == b
  {
    hide *;
    AddLaws(a, b, b);
    AddLaws(0, b, b);
    AddLaws(a, 0, 0);
    AddLaws(b, 0, 0);
  }
}
