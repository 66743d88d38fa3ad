module Gf {
  type gf = x: int | 0 <= x < 256 witness 0

  // ---- addition: bitwise exclusive or ------------------------------------

  function Xor(a: nat, b: nat): (r: nat)
    decreases a + b
  {
    if a + b == 0 then 0 else 2 * Xor(a / 2, b / 2) + (if a % 2 == b % 2 then 0 else 1)
  }

  lemma {:induction false} XorZero(a: nat)
    ensures Xor(a, 0) == a
  {
    if a != 0 { XorZero(a / 2); }
  }

  lemma {:induction false} XorComm(a: nat, b: nat)
    ensures Xor(a, b) == Xor(b, a)
    decreases a + b
  {
    if a + b != 0 { XorComm(a / 2, b / 2); }
  }

  lemma {:induction false} XorSelf(a: nat)
    ensures Xor(a, a) == 0
  {
    if a != 0 { XorSelf(a / 2); }
  }

  lemma {:induction false} XorAssoc(a: nat, b: nat, c: nat)
    ensures Xor(Xor(a, b), c) == Xor(a, Xor(b, c))
    decreases a + b + c
  {
    if a + b + c != 0 {
      XorAssoc(a / 2, b / 2, c / 2);
      XorHalf(a, b);
      XorHalf(b, c);
      XorHalf(Xor(a, b), c);
      XorHalf(a, Xor(b, c));
    }
  }

  lemma XorHalf(a: nat, b: nat)
    ensures Xor(a, b) / 2 == Xor(a / 2, b / 2)
    ensures Xor(a, b) % 2 == if a % 2 == b % 2 then 0 else 1
    ensures Xor(a, b) == 2 * Xor(a / 2, b / 2) + (if a % 2 == b % 2 then 0 else 1)
  {
  }

  function Pow2(n: nat): (p: nat)
    ensures p > 0
  {
    if n == 0 then 1 else 2 * Pow2(n - 1)
  }

  lemma HalfPlus(a: nat, p: nat)
    ensures (a + 2 * p) / 2 == a / 2 + p
    ensures (a + 2 * p) % 2 == a % 2
  {}

  lemma XorTopBase()
    ensures Xor(0, 0) == 0 && Xor(1, 0) == 1 && Xor(1, 1) == 0
  {}

  // Exclusive or acts on the bit of weight 2^n, and on the bits below it, separately.
  lemma {:induction false} XorTop(n: nat, a: nat, b: nat)
    requires a < Pow2(n) && b < Pow2(n)
    ensures Xor(a, b) < Pow2(n)
    ensures Xor(a + Pow2(n), b) == Xor(a, b) + Pow2(n)
    ensures Xor(a + Pow2(n), b + Pow2(n)) == Xor(a, b)
  {
    hide Xor;
    if n == 0 {
      XorTopBase();
    } else {
      var p := Pow2(n - 1);
      XorTop(n - 1, a / 2, b / 2);
      HalfPlus(a, p);
      HalfPlus(b, p);
      XorHalf(a, b);
      XorHalf(a + 2 * p, b);
      XorHalf(a + 2 * p, b + 2 * p);
    }
  }

  function Add(a: gf, b: gf): gf
  {
    XorByte(a, b);
    Xor(a, b)
  }

  lemma XorByte(a: nat, b: nat)
    requires a < 256 && b < 256
    ensures Xor(a, b) < 256
  {
    XorTop(8, a, b);
  }

  lemma AddLaws(a: gf, b: gf, c: gf)
    ensures Add(a, b) == Add(b, a)
    ensures Add(Add(a, b), c) == Add(a, Add(b, c))
    ensures Add(a, a) == 0
    ensures Add(a, 0) == a && Add(0, a) == a
  {
    hide Xor;
    XorComm(a, b);
    XorComm(a, 0);
    XorAssoc(a, b, c);
    XorSelf(a);
    XorZero(a);
  }

  // ---- multiplication by x modulo 1 + x^2 + x^3 + x^4 + x^8 ---------------

  function XTime(a: gf): gf
  {
    if a < 128 then 2 * a else Add(2 * a - 256, 29)
  }

  // What XTime does to a sum, where c and d are the shifted operands without their top bits.
  lemma AddShuffle(c: gf, d: gf, m: gf)
    ensures Add(Add(c, d), m) == Add(Add(c, m), d) == Add(c, Add(d, m))
    ensures Add(Add(c, m), Add(d, m)) == Add(c, d)
  {
    hide *;
    AddLaws(c, d, m);
    AddLaws(c, m, d);
    AddLaws(d, m, d);
    AddLaws(c, m, Add(d, m));
    AddLaws(m, d, m);
    AddLaws(d, m, m);
    AddLaws(Add(m, d), m, m);
    AddLaws(d, 0, 0);
  }

  lemma XTimeAdd(a: gf, b: gf)
    ensures XTime(Add(a, b)) == Add(XTime(a), XTime(b))
  {
    hide Xor;
    assert Pow2(7) == 128;
    var a', b' := a % 128, b % 128;
    var c, d: gf := 2 * a', 2 * b';
    XorTop(7, a', b');
    XorTop(7, b', a');
    XorComm(a', b');
    XorComm(a, b);
    XorHalf(c, d);
    AddShuffle(c, d, 29);
    assert Add(c, d) == 2 * Xor(a', b');
    assert XTime(a) == if a < 128 then c else Add(c, 29);
    assert XTime(b) == if b < 128 then d else Add(d, 29);
  }

  // ---- multiplication: Horner's rule over the bits of the second factor ---

  function Bit(b: gf, a: gf): gf
  {
    if b % 2 == 1 then a else 0
  }

  function Mul(a: gf, b: gf): gf
    decreases b
  {
    if b == 0 then 0 else Add(Bit(b, a), XTime(Mul(a, b / 2)))
  }

  lemma MulUnfold(a: gf, b: gf)
    ensures Mul(a, b) == Add(Bit(b, a), XTime(Mul(a, b / 2)))
    ensures Mul(a, 0) == 0
  {
    hide Xor, Add;
    AddLaws(0, 0, 0);
  }

  lemma AddHalf(b: gf, c: gf)
    ensures Add(b, c) / 2 == Add(b / 2, c / 2)
    ensures forall a: gf :: Bit(Add(b, c), a) == Add(Bit(b, a), Bit(c, a))
  {
    hide Xor;
    XorHalf(b, c);
    forall a: gf
      ensures Bit(Add(b, c), a) == Add(Bit(b, a), Bit(c, a))
    {
      AddLaws(a, a, a);
      AddLaws(0, 0, 0);
    }
  }

  lemma AddSwap(p: gf, q: gf, r: gf, s: gf)
    ensures Add(Add(p, q), Add(r, s)) == Add(Add(p, r), Add(q, s))
  {
    hide *;
    AddLaws(p, q, Add(r, s));
    AddLaws(q, r, s);
    AddLaws(q, r, 0);
    AddLaws(r, q, s);
    AddLaws(p, r, Add(q, s));
  }

  lemma {:induction false} MulAddRight(a: gf, b: gf, c: gf)
    ensures Mul(a, Add(b, c)) == Add(Mul(a, b), Mul(a, c))
    decreases b
  {
    hide *;
    if b == 0 {
      MulUnfold(a, b);
      AddLaws(c, 0, 0);
      AddLaws(Mul(a, c), 0, 0);
    } else {
      MulUnfold(a, b);
      MulUnfold(a, c);
      MulUnfold(a, Add(b, c));
      AddHalf(b, c);
      MulAddRight(a, b / 2, c / 2);
      XTimeAdd(Mul(a, b / 2), Mul(a, c / 2));
      AddSwap(Bit(b, a), Bit(c, a), XTime(Mul(a, b / 2)), XTime(Mul(a, c / 2)));
    }
  }

  lemma BitLaws(b: gf, p: gf, q: gf)
    ensures Bit(b, Add(p, q)) == Add(Bit(b, p), Bit(b, q))
    ensures Bit(b, XTime(p)) == XTime(Bit(b, p))
    ensures forall a: gf :: Mul(a, Bit(b, p)) == Bit(b, Mul(a, p))
  {
    hide Xor, Add;
    AddLaws(0, 0, 0);
  }

  lemma {:induction false} MulAddLeft(a: gf, b: gf, c: gf)
    ensures Mul(Add(a, b), c) == Add(Mul(a, c), Mul(b, c))
    decreases c
  {
    hide *;
    MulUnfold(a, c);
    MulUnfold(b, c);
    MulUnfold(Add(a, b), c);
    if c == 0 {
      AddLaws(0, 0, 0);
      MulUnfold(a, 0);
      MulUnfold(b, 0);
      MulUnfold(Add(a, b), 0);
    } else {
      MulAddLeft(a, b, c / 2);
      XTimeAdd(Mul(a, c / 2), Mul(b, c / 2));
      BitLaws(c, a, b);
      AddSwap(Bit(c, a), Bit(c, b), XTime(Mul(a, c / 2)), XTime(Mul(b, c / 2)));
    }
  }

  lemma XTimeZero()
    ensures XTime(0) == 0
  {}

  lemma {:induction false} MulXTimeLeft(a: gf, b: gf)
    ensures Mul(XTime(a), b) == XTime(Mul(a, b))
    decreases b
  {
    hide *;
    MulUnfold(a, b);
    MulUnfold(XTime(a), b);
    if b == 0 {
      XTimeZero();
    } else {
      MulXTimeLeft(a, b / 2);
      BitLaws(b, a, 0);
      XTimeAdd(Bit(b, a), XTime(Mul(a, b / 2)));
    }
  }

  // Every element is its low bit plus x times the rest, without reduction.
  lemma AddBit(b: gf)
    ensures Add(Bit(b, 1), XTime(b / 2)) == b
  {
    XorHalf(Bit(b, 1), XTime(b / 2));
    XorZero(b / 2);
    XorComm(b / 2, 0);
  }

  lemma {:induction false} MulOneLeft(b: gf)
    ensures Mul(1, b) == b
  {
    hide *;
    MulUnfold(1, b);
    if b != 0 {
      MulOneLeft(b / 2);
      AddBit(b);
    }
  }

  lemma MulBitLeft(b: gf, a: gf)
    ensures Mul(Bit(b, 1), a) == Bit(b, a)
  {
    hide Mul;
    MulOneLeft(a);
    MulZeroLeft(a);
  }

  lemma {:induction false} MulZeroLeft(a: gf)
    ensures Mul(0, a) == 0
  {
    hide *;
    AddLaws(0, 0, 0);
    MulAddLeft(0, 0, a);
    AddLaws(Mul(0, a), 0, 0);
  }

  lemma {:induction false} MulComm(a: gf, b: gf)
    ensures Mul(a, b) == Mul(b, a)
    decreases a
  {
    hide *;
    MulUnfold(b, a);
    if a == 0 {
      MulZeroLeft(b);
    } else {
      MulComm(a / 2, b);
      AddBit(a);
      MulAddLeft(Bit(a, 1), XTime(a / 2), b);
      MulBitLeft(a, b);
      MulXTimeLeft(a / 2, b);
    }
  }

  lemma {:induction false} MulAssoc(a: gf, b: gf, c: gf)
    ensures Mul(Mul(a, b), c) == Mul(a, Mul(b, c))
    decreases c
  {
    hide *;
    MulUnfold(Mul(a, b), c);
    MulUnfold(b, c);
    if c == 0 {
      MulUnfold(a, 0);
    } else {
      MulAssoc(a, b, c / 2);
      MulAddRight(a, Bit(c, b), XTime(Mul(b, c / 2)));
      BitLaws(c, b, 0);
      MulComm(a, XTime(Mul(b, c / 2)));
      MulXTimeLeft(Mul(b, c / 2), a);
      MulComm(a, Mul(b, c / 2));
    }
  }

  lemma XTimeNonzero(a: gf)
    requires a != 0
    ensures XTime(a) != 0
  {
    if a >= 128 {
      hide Xor;
      var b: gf := 2 * a - 256;
      AddLaws(b, 29, 29);
      AddLaws(0, 29, 29);
      assert Add(b, 29) == 0 ==> b == 29;
    }
  }
}
