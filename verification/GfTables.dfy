module GfTables {
  import opened Gf
  import opened GfPowers

  const GF_BITS: nat := 8
  const GF_SIZE: nat := 255
  const PRIMITIVE_POLYNOMIAL := "101110001"

  ghost predicate ExpTable(s: seq<gf>)
  {
    |s| == 2 * GF_SIZE && forall i :: 0 <= i < |s| ==> s[i] == Exp(i)
  }

  ghost predicate LogTable(s: seq<nat>)
  {
    |s| == GF_SIZE + 1 && s[0] == GF_SIZE && forall a :: 1 <= a < |s| ==> s[a] == Log(a)
  }

  ghost predicate InverseTable(s: seq<gf>)
  {
    |s| == GF_SIZE + 1 && forall a :: 0 <= a < |s| ==> s[a] == Inv(a)
  }

  ghost predicate MulTable(s: seq<seq<gf>>)
  {
    && |s| == GF_SIZE + 1
    && (forall x :: 0 <= x < |s| ==> |s[x]| == GF_SIZE + 1)
    && forall x, y :: 0 <= x < |s| && 0 <= y < GF_SIZE + 1 ==> s[x][y] == Mul(x, y)
  }

  // The static tables of the codec, which nothing writes once they have been generated.
  datatype Tables = Tables(exp: seq<gf>, log: seq<nat>, inverse: seq<gf>, mul: seq<seq<gf>>)
  {
    ghost predicate Valid()
    {
      ExpTable(exp) && LogTable(log) && InverseTable(inverse) && MulTable(mul)
    }

    function GfMul(x: gf, y: gf): (r: gf)
      requires Valid()
      ensures r == Mul(x, y)
    {
      mul[x][y]
    }

    function Inverse(x: gf): (r: gf)
      requires Valid()
      ensures r == Inv(x)
    {
      inverse[x]
    }
  }

  // x % 255 without a division.
  method Modnn(x: nat) returns (r: gf)
    ensures r == x % GF_SIZE
  {
    var y: nat := x;
    while y >= GF_SIZE
      invariant y % GF_SIZE == x % GF_SIZE
      decreases y
    {
      y := y - GF_SIZE;
      FoldByte(y);
      y := y / 256 + y % 256;
    }
    r := y;
  }

  lemma FoldByte(y: nat)
    ensures (y / 256 + y % 256) % GF_SIZE == y % GF_SIZE
    ensures (y + GF_SIZE) % GF_SIZE == y % GF_SIZE
    ensures y / 256 + y % 256 < y + GF_SIZE
  {
    var q, r := y / 256, y % 256;
    assert y == GF_SIZE * q + (q + r);
    ModMultiple(q, q + r);
    ModMultiple(1, y);
  }

  lemma {:induction false} ModMultiple(q: nat, r: nat)
    ensures (GF_SIZE * q + r) % GF_SIZE == r % GF_SIZE
  {
    if q > 0 {
      ModMultiple(q - 1, r);
      assert GF_SIZE * q + r == GF_SIZE * (q - 1) + r + GF_SIZE;
    }
  }

  // The reduction of x^8: the sum of the first i coefficients of the polynomial.
  function Reduction(i: nat): gf
  {
    if i == 0 then 0 else if i <= 2 then 1 else if i == 3 then 5 else if i == 4 then 13 else 29
  }

  lemma AddTopBit(n: nat, a: gf)
    requires n < 8 && a < Pow2(n)
    ensures Pow2(n) < 256 && Add(a, Pow2(n)) == a + Pow2(n)
  {
    hide Xor;
    ByteBits(n);
    XorTop(n, 0, a);
    XorComm(a, Pow2(n));
    XorComm(a, 0);
    XorZero(a);
  }

  lemma ByteBits(n: nat)
    requires n < 8
    ensures Pow2(n) == [1, 2, 4, 8, 16, 32, 64, 128][n]
  {
    assert n == 0 || n == 1 || n == 2 || n == 3 || n == 4 || n == 5 || n == 6 || n == 7;
  }

  lemma {:induction false} ExpBits(i: nat)
    requires i < 8
    ensures Pow2(i) < 256 && Exp(i) == Pow2(i)
  {
    hide Add;
    ByteBits(i);
    if i > 0 {
      ByteBits(i - 1);
      ExpBits(i - 1);
    }
  }

  lemma ReductionStep(i: nat)
    requires i < 8
    ensures Pow2(i) < 256
    ensures Reduction(i + 1) == if PRIMITIVE_POLYNOMIAL[i] == '1' then Add(Reduction(i), Pow2(i)) else Reduction(i)
  {
    hide Add;
    ByteBits(i);
    if Reduction(i) < Pow2(i) {
      AddTopBit(i, Reduction(i));
    }
  }

  lemma ExpReduction()
    ensures Exp(8) == Reduction(8)
  {
    hide Add;
    ExpBits(7);
    ByteBits(7);
    AddLaws(29, 0, 0);
  }

  // How the generation loop spells multiplication by x.
  lemma ShiftOut(a: gf)
    requires a >= 128
    ensures Add(a, 128) == a - 128
    ensures Add(29, 2 * (a - 128)) == XTime(a)
  {
    hide Xor;
    assert Pow2(7) == 128;
    XorTop(7, a - 128, 0);
    XorZero(a - 128);
    AddLaws(a - 128, 128, 128);
    AddLaws(2 * (a - 128), 29, 0);
    AddLaws(a - 128, 0, 0);
    AddTopBit(7, a - 128);
  }

  // The powers of alpha below the n-th are in the table of powers, and their exponents in the table of logarithms.
  ghost predicate Generated(exp: seq<gf>, log: seq<nat>, n: nat)
  {
    && |exp| == 2 * GF_SIZE && |log| == GF_SIZE + 1 && n <= GF_SIZE
    && (forall i :: 0 <= i < n ==> exp[i] == Exp(i))
    && forall i: nat :: i < n ==> log[Exp(i)] == i
  }

  lemma GeneratedNext(exp: seq<gf>, log: seq<nat>, n: nat, exp': seq<gf>, log': seq<nat>)
    requires Generated(exp, log, n) && n < GF_SIZE
    requires |exp'| == |exp| && exp'[..n] == exp[..n] && exp'[n] == Exp(n)
    requires log' == log[Exp(n) := n]
    ensures Generated(exp', log', n + 1)
  {
    hide Exp;
    forall i: nat | i < n + 1
      ensures exp'[i] == Exp(i) && log'[Exp(i)] == i
    {
      if i < n {
        ExpInjective(i, n);
        assert exp'[..n][i] == exp[..n][i];
      }
    }
  }

  lemma GeneratedLog(exp: seq<gf>, log: seq<nat>)
    requires Generated(exp, log, GF_SIZE)
    ensures forall a :: 1 <= a <= GF_SIZE ==> log[a] == Log(a)
  {
    hide Exp;
    forall a | 1 <= a <= GF_SIZE
      ensures log[a] == Log(a)
    {
      assert Exp(Log(a)) == a;
    }
  }

  // The first GF_BITS powers are single bits; their sum picks up x^8 on the way.
  method GenerateLow(gfExp: array<gf>, gfLog: array<nat>)
    requires gfExp.Length == 2 * GF_SIZE && gfLog.Length == GF_SIZE + 1
    modifies gfExp, gfLog
    ensures Generated(gfExp[..], gfLog[..], GF_BITS + 1)
    ensures gfExp[GF_BITS] == 29
  {
    hide Exp, Add;
    var mask: nat := 1;
    gfExp[GF_BITS] := 0;
    var i: nat := 0;
    while i < GF_BITS
      invariant i <= GF_BITS
      invariant mask == if i < GF_BITS then Pow2(i) else 0
      invariant gfExp[GF_BITS] == Reduction(i)
      invariant Generated(gfExp[..], gfLog[..], i)
    {
      ghost var exp, log := gfExp[..], gfLog[..];
      ExpBits(i);
      gfExp[i] := mask;
      gfLog[gfExp[i]] := i;
      ReductionStep(i);
      if PRIMITIVE_POLYNOMIAL[i] == '1' {
        gfExp[GF_BITS] := Add(gfExp[GF_BITS], mask);
      }
      GeneratedNext(exp, log, i, gfExp[..], gfLog[..]);
      ByteBits(i);
      mask := mask * 2 % 256;
      i := i + 1;
    }
    ExpReduction();
    ghost var log := gfLog[..];
    gfLog[gfExp[GF_BITS]] := GF_BITS;
    GeneratedNext(gfExp[..], log, i, gfExp[..], gfLog[..]);
  }

  // Every further power is the previous one shifted, reduced when its top bit falls out.
  method GenerateHigh(gfExp: array<gf>, gfLog: array<nat>)
    requires gfExp.Length == 2 * GF_SIZE && gfLog.Length == GF_SIZE + 1
    requires Generated(gfExp[..], gfLog[..], GF_BITS + 1) && gfExp[GF_BITS] == 29
    modifies gfExp, gfLog
    ensures Generated(gfExp[..], gfLog[..], GF_SIZE)
  {
    hide Exp, Add, XTime;
    var mask: gf := 128;
    var i: nat := GF_BITS + 1;
    while i < GF_SIZE
      invariant GF_BITS < i <= GF_SIZE
      invariant gfExp[GF_BITS] == 29
      invariant Generated(gfExp[..], gfLog[..], i)
    {
      ghost var exp, log := gfExp[..], gfLog[..];
      ExpNext(i - 1);
      if gfExp[i - 1] >= mask {
        ShiftOut(gfExp[i - 1]);
        gfExp[i] := Add(gfExp[GF_BITS], Add(gfExp[i - 1], mask) * 2);
      } else {
        ShiftIn(gfExp[i - 1]);
        gfExp[i] := gfExp[i - 1] * 2;
      }
      gfLog[gfExp[i]] := i;
      GeneratedNext(exp, log, i, gfExp[..], gfLog[..]);
      i := i + 1;
    }
  }

  method GenerateGf(gfExp: array<gf>, gfLog: array<nat>, inverse: array<gf>)
    requires gfExp.Length == 2 * GF_SIZE && gfLog.Length == GF_SIZE + 1 && inverse.Length == GF_SIZE + 1
    requires gfExp != inverse
    modifies gfExp, gfLog, inverse
    ensures ExpTable(gfExp[..]) && LogTable(gfLog[..]) && InverseTable(inverse[..])
  {
    hide Exp, Inv;
    GenerateLow(gfExp, gfLog);
    GenerateHigh(gfExp, gfLog);
    GeneratedLog(gfExp[..], gfLog[..]);
    gfLog[0] := GF_SIZE;
    assert LogTable(gfLog[..]);
    var i: nat := 0;
    while i < GF_SIZE
      invariant i <= GF_SIZE
      invariant forall j :: 0 <= j < GF_SIZE + i ==> gfExp[j] == Exp(j)
      modifies gfExp
    {
      ExpPeriod(i);
      gfExp[i + GF_SIZE] := gfExp[i];
      i := i + 1;
    }
    inverse[0] := 0;
    inverse[1] := 1;
    InvSmall();
    assert ExpTable(gfExp[..]);
    i := 2;
    while i <= GF_SIZE
      invariant 2 <= i <= GF_SIZE + 1
      invariant forall j :: 0 <= j < i ==> inverse[j] == Inv(j)
      modifies inverse
    {
      InvIsExp(i);
      assert gfLog[..][i] == Log(i);
      assert gfExp[..][GF_SIZE - gfLog[i]] == Inv(i);
      inverse[i] := gfExp[GF_SIZE - gfLog[i]];
      i := i + 1;
    }
  }

  // Row 0 and column 0 are first filled from the false logarithm of 0, then cleared.
  method InitMulTable(gfExp: seq<gf>, gfLog: seq<nat>, mul: array2<gf>)
    requires ExpTable(gfExp) && LogTable(gfLog)
    requires mul.Length0 == GF_SIZE + 1 && mul.Length1 == GF_SIZE + 1
    modifies mul
    ensures forall x, y :: 0 <= x <= GF_SIZE && 0 <= y <= GF_SIZE ==> mul[x, y] == Mul(x, y)
  {
    hide Exp, Mul;
    for i := 0 to GF_SIZE + 1
      invariant forall x, y :: 0 < x < i && 0 < y <= GF_SIZE ==> mul[x, y] == Mul(x, y)
    {
      for j := 0 to GF_SIZE + 1
        invariant forall x, y :: 0 < x < i && 0 < y <= GF_SIZE ==> mul[x, y] == Mul(x, y)
        invariant forall y :: 0 < i && 0 < y < j ==> mul[i, y] == Mul(i, y)
      {
        var e := Modnn(gfLog[i] + gfLog[j]);
        mul[i, j] := gfExp[e];
        if i > 0 && j > 0 {
          MulByLog(i, j);
        }
      }
    }
    for j := 0 to GF_SIZE + 1
      invariant forall x, y :: 0 < x <= GF_SIZE && 0 < y <= GF_SIZE ==> mul[x, y] == Mul(x, y)
      invariant forall x :: 0 <= x < j ==> mul[0, x] == 0 && mul[x, 0] == 0
    {
      mul[0, j] := 0;
      mul[j, 0] := 0;
    }
    forall x: gf, y: gf | x == 0 || y == 0
      ensures Mul(x, y) == 0
    {
      MulZero(x);
      MulZero(y);
    }
  }

  lemma MulByLog(x: gf, y: gf)
    requires x != 0 && y != 0
    ensures Mul(x, y) == Exp((Log(x) + Log(y)) % 255)
  {
    hide *;
    ExpAdd(Log(x), Log(y));
    ExpMod(Log(x) + Log(y));
  }

  method InitFec() returns (t: Tables)
    ensures t.Valid()
  {
    hide Exp, Inv, Mul;
    var gfExp, gfLog, inverse := new gf[2 * GF_SIZE], new nat[GF_SIZE + 1], new gf[GF_SIZE + 1];
    GenerateGf(gfExp, gfLog, inverse);
    var mul := new gf[GF_SIZE + 1, GF_SIZE + 1];
    InitMulTable(gfExp[..], gfLog[..], mul);
    var rows := seq(GF_SIZE + 1, x requires 0 <= x <= GF_SIZE reads mul =>
      seq(GF_SIZE + 1, y requires 0 <= y <= GF_SIZE reads mul => mul[x, y]));
    t := Tables(gfExp[..], gfLog[..], inverse[..], rows);
  }

  lemma ShiftIn(a: gf)
    requires a < 128
    ensures 2 * a == XTime(a)
  {}

  lemma ExpNext(i: nat)
    ensures Exp(i + 1) == XTime(Exp(i))
  {}

  lemma InvSmall()
    ensures Inv(0) == 0 && Inv(1) == 1
  {
    hide Exp, Mul;
    InvLaw(1);
    MulZero(Inv(1));
  }

  lemma InvIsExp(a: gf)
    requires a != 0
    ensures Inv(a) == Exp(255 - Log(a)) && Log(a) < 255
  {}
}
