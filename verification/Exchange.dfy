// Why in-place elimination inverts. At every moment the matrix S relates two mixed vectors of unknowns x and
// right-hand sides y = A x. Column j stands for x[j] and row j for some y[perm[j]] until j has been a pivot; after
// that the two have changed places. Row swaps permute the right-hand sides of the rows that have not been pivots.
module Exchange {
  import opened Gf
  import opened GfPowers
  import opened LinAlg
  import opened Sequences

  ghost predicate Layout(done: seq<bool>, perm: seq<nat>, k: nat)
  {
    |done| == k && |perm| == k && forall j :: 0 <= j < k ==> perm[j] < k
  }

  ghost function In(x: Vec, y: Vec, done: seq<bool>, perm: seq<nat>): (u: Vec)
    requires |x| == |y| && Layout(done, perm, |x|)
    ensures |u| == |x|
    ensures forall j :: 0 <= j < |x| ==> u[j] == if done[j] then y[perm[j]] else x[j]
  {
    seq(|x|, j requires 0 <= j < |x| => if done[j] then y[perm[j]] else x[j])
  }

  ghost function Out(x: Vec, y: Vec, done: seq<bool>, perm: seq<nat>): (v: Vec)
    requires |x| == |y| && Layout(done, perm, |x|)
    ensures |v| == |x|
    ensures forall j :: 0 <= j < |x| ==> v[j] == if done[j] then x[j] else y[perm[j]]
  {
    seq(|x|, j requires 0 <= j < |x| => if done[j] then x[j] else y[perm[j]])
  }

  ghost predicate Agree(a: Matrix, s: Matrix, done: seq<bool>, perm: seq<nat>, x: Vec, y: Vec)
    requires |x| == |y| && Layout(done, perm, |x|) && IsMatrix(a, |x|, |x|) && IsMatrix(s, |x|, |x|)
  {
    MatVec(a, x) == y <==> MatVec(s, In(x, y, done, perm)) == Out(x, y, done, perm)
  }

  // S still says what A says.
  ghost predicate Represents(a: Matrix, s: Matrix, done: seq<bool>, perm: seq<nat>, k: nat)
  {
    && Layout(done, perm, k) && IsMatrix(a, k, k) && IsMatrix(s, k, k)
    && forall x: Vec, y: Vec {:trigger Agree(a, s, done, perm, x, y)} | |x| == k && |y| == k ::
      Agree(a, s, done, perm, x, y)
  }

  lemma RepresentsItself(a: Matrix, k: nat)
    requires IsMatrix(a, k, k)
    ensures Represents(a, a, seq(k, j => false), seq(k, j => j), k)
  {
    hide Dot;
    var done, perm := seq(k, j => false), seq(k, j => j);
    forall x: Vec, y: Vec | |x| == k && |y| == k
      ensures Agree(a, a, done, perm, x, y)
    {
      assert In(x, y, done, perm) == x && Out(x, y, done, perm) == y;
    }
  }

  lemma SwapRowsRepresents(a: Matrix, s: Matrix, done: seq<bool>, perm: seq<nat>, k: nat, i: nat, j: nat)
    requires Represents(a, s, done, perm, k)
    requires i < k && j < k && !done[i] && !done[j]
    ensures Represents(a, SwapAt(s, i, j), done, SwapAt(perm, i, j), k)
  {
    hide Dot;
    var s', perm' := SwapAt(s, i, j), SwapAt(perm, i, j);
    forall x: Vec, y: Vec | |x| == k && |y| == k
      ensures Agree(a, s', done, perm', x, y)
    {
      var u, v := In(x, y, done, perm), Out(x, y, done, perm);
      assert Agree(a, s, done, perm, x, y);
      assert In(x, y, done, perm') == u;
      assert Out(x, y, done, perm') == SwapAt(v, i, j);
      assert MatVec(s', u) == SwapAt(MatVec(s, u), i, j);
      assert v == SwapAt(SwapAt(v, i, j), i, j);
      assert MatVec(s, u) == SwapAt(SwapAt(MatVec(s, u), i, j), i, j);
    }
  }

  // ---- one pivot --------------------------------------------------------------

  // What the loop over the rows leaves behind for the pivot on the diagonal at i.
  ghost predicate IsPivot(s: Matrix, s': Matrix, i: nat, k: nat)
  {
    && IsMatrix(s, k, k) && IsMatrix(s', k, k) && i < k && s[i][i] != 0
    && (forall j :: 0 <= j < k ==> s'[i][j] == Mul(Inv(s[i][i]), if j == i then 1 else s[i][j]))
    && forall r, j {:trigger s'[r][j]} :: 0 <= r < k && 0 <= j < k && r != i ==>
      s'[r][j] == Add(if j == i then 0 else s[r][j], Mul(s[r][i], s'[i][j]))
  }

  lemma DotReplace(a: Vec, x: Vec, j: nat, w: gf, v: gf, n: nat)
    requires n <= |a| && n <= |x| && j < n
    ensures Dot(a[j := w], x[j := v], n) == Add(Dot(a, x, n), Add(Mul(a[j], x[j]), Mul(w, v)))
  {
    hide *;
    var x' := x[j := v];
    DotUpdate(a, x, j, v, n);
    DotComm(a, x', n);
    DotUpdate(x', a, j, w, n);
    DotComm(a[j := w], x', n);
    MulComm(a[j], v);
    MulComm(w, v);
    var d, p, q, r := Dot(a, x, n), Mul(a[j], x[j]), Mul(a[j], v), Mul(w, v);
    // (d + (p + q)) + (q + r) == d + (p + r)
    AddLaws(d, p, q);
    AddCancel(Add(d, p), q, r);
    AddLaws(d, p, r);
  }

  // The pivot row solved for the unknown of its column.
  lemma PivotRow(s: Matrix, s': Matrix, i: nat, k: nat, u: Vec, v: Vec)
    requires IsPivot(s, s', i, k) && |u| == k && |v| == k
    ensures Dot(s[i], u, k) == v[i] <==> Dot(s'[i], u[i := v[i]], k) == u[i]
  {
    hide Dot, Mul, Add, Inv;
    var c, d, e := s[i][i], Dot(s[i], u, k), Dot(s'[i], u[i := v[i]], k);
    DotScaled(s'[i], Inv(c), s[i][i := 1], u[i := v[i]], k);
    DotReplace(s[i], u, i, 1, v[i], k);
    MulZero(v[i]);
    var w := Mul(c, u[i]);
    assert e == Mul(Inv(c), Add(d, Add(w, v[i])));
    MulInvCancel(c, u[i]);
    MulInvCancel(c, Add(d, Add(w, v[i])));
    AddCancel(v[i], v[i], w);
    AddLaws(v[i], v[i], w);
    AddLaws(w, v[i], d);
    AddLaws(v[i], w, d);
    AddLaws(d, w, v[i]);
    AddLaws(d, v[i], w);
    AddLaws(Add(d, v[i]), w, w);
    AddZero(d, v[i]);
    AddLaws(w, 0, 0);
  }

  // Every other row, once the pivot row holds.
  lemma OtherRow(s: Matrix, s': Matrix, i: nat, k: nat, u: Vec, v: Vec, r: nat)
    requires IsPivot(s, s', i, k) && |u| == k && |v| == k && r < k && r != i
    requires Dot(s'[i], u[i := v[i]], k) == u[i]
    ensures Dot(s'[r], u[i := v[i]], k) == Dot(s[r], u, k)
  {
    hide Dot, Mul, Add, Inv;
    var c, d := s[r][i], Dot(s[r], u, k);
    DotAddScaled(s'[r], s[r][i := 0], c, s'[i], u[i := v[i]], k);
    DotReplace(s[r], u, i, 0, v[i], k);
    MulZero(v[i]);
    var w := Mul(c, u[i]);
    AddLaws(w, 0, 0);
    AddLaws(d, w, w);
    AddLaws(d, 0, 0);
    AddLaws(w, w, w);
  }

  lemma PivotExchange(s: Matrix, s': Matrix, i: nat, k: nat, u: Vec, v: Vec)
    requires IsPivot(s, s', i, k) && |u| == k && |v| == k
    ensures MatVec(s, u) == v <==> MatVec(s', u[i := v[i]]) == v[i := u[i]]
  {
    hide Dot, IsPivot;
    assert IsMatrix(s, k, k) && IsMatrix(s', k, k) && i < k by { PivotShape(s, s', i, k); }
    var u', v' := u[i := v[i]], v[i := u[i]];
    PivotRow(s, s', i, k, u, v);
    if Dot(s'[i], u', k) == u[i] {
      forall r | 0 <= r < k && r != i
        ensures MatVec(s', u')[r] == MatVec(s, u)[r]
      {
        OtherRow(s, s', i, k, u, v, r);
      }
      if MatVec(s, u) == v {
        assert MatVec(s', u') == v';
      }
      if MatVec(s', u') == v' {
        forall r | 0 <= r < k
          ensures MatVec(s, u)[r] == v[r]
        {
          assert r != i ==> v[r] == v'[r];
        }
      }
    } else {
      assert MatVec(s', u')[i] != v'[i] && MatVec(s, u)[i] != v[i];
    }
  }

  lemma PivotShape(s: Matrix, s': Matrix, i: nat, k: nat)
    requires IsPivot(s, s', i, k)
    ensures IsMatrix(s, k, k) && IsMatrix(s', k, k) && i < k
  {}

  lemma PivotRepresents(a: Matrix, s: Matrix, s': Matrix, done: seq<bool>, perm: seq<nat>, i: nat, k: nat)
    requires Represents(a, s, done, perm, k) && IsPivot(s, s', i, k) && !done[i]
    ensures Represents(a, s', done[i := true], perm, k)
  {
    hide Dot, IsPivot, MatVec;
    PivotShape(s, s', i, k);
    var done' := done[i := true];
    forall x: Vec, y: Vec | |x| == k && |y| == k
      ensures Agree(a, s', done', perm, x, y)
    {
      assert Agree(a, s, done, perm, x, y);
      var u, v := In(x, y, done, perm), Out(x, y, done, perm);
      assert In(x, y, done', perm) == u[i := v[i]];
      assert Out(x, y, done', perm) == v[i := u[i]];
      PivotExchange(s, s', i, k, u, v);
    }
  }

  // ---- no pivot left, or every pivot done -------------------------------------

  lemma StuckIsSingular(a: Matrix, s: Matrix, done: seq<bool>, perm: seq<nat>, k: nat, j0: nat)
    requires Represents(a, s, done, perm, k) && j0 < k && !done[j0]
    requires forall r, j {:trigger s[r][j]} :: 0 <= r < k && 0 <= j < k && !done[r] && !done[j] ==> s[r][j] == 0
    ensures Singular(a, k)
  {
    hide Dot;
    var x: Vec := seq(k, j requires 0 <= j < k => if done[j] then s[j][j0] else if j == j0 then 1 else 0);
    var y := Zeros(k);
    assert Agree(a, s, done, perm, x, y);
    assert In(x, y, done, perm) == Unit(j0, k);
    MatVecUnit(s, j0, k);
    assert Out(x, y, done, perm) == Column(s, j0, k, k);
    assert x[j0] == 1 && MatVec(a, x) == y;
  }

  ghost function Gather(y: Vec, perm: seq<nat>): (u: Vec)
    requires forall j :: 0 <= j < |perm| ==> perm[j] < |y|
    ensures |u| == |perm| && forall j :: 0 <= j < |perm| ==> u[j] == y[perm[j]]
  {
    seq(|perm|, j requires 0 <= j < |perm| => y[perm[j]])
  }

  ghost predicate AgreeGather(a: Matrix, s: Matrix, perm: seq<nat>, x: Vec, y: Vec)
    requires |x| == |y| == |perm| && IsMatrix(a, |x|, |x|) && IsMatrix(s, |x|, |x|)
    requires forall j :: 0 <= j < |perm| ==> perm[j] < |y|
  {
    MatVec(a, x) == y <==> MatVec(s, Gather(y, perm)) == x
  }

  // S is the inverse of A but for the order of its columns.
  ghost predicate Scrambled(a: Matrix, s: Matrix, perm: seq<nat>, k: nat)
  {
    && |perm| == k && (forall j :: 0 <= j < k ==> perm[j] < k)
    && IsMatrix(a, k, k) && IsMatrix(s, k, k)
    && forall x: Vec, y: Vec {:trigger AgreeGather(a, s, perm, x, y)} | |x| == k && |y| == k ::
      AgreeGather(a, s, perm, x, y)
  }

  lemma AllDoneScrambled(a: Matrix, s: Matrix, done: seq<bool>, perm: seq<nat>, k: nat)
    requires Represents(a, s, done, perm, k)
    requires forall j :: 0 <= j < k ==> done[j]
    ensures Scrambled(a, s, perm, k)
  {
    hide MatVec, Dot;
    forall x: Vec, y: Vec | |x| == k && |y| == k
      ensures AgreeGather(a, s, perm, x, y)
    {
      assert Agree(a, s, done, perm, x, y);
      assert In(x, y, done, perm) == Gather(y, perm) && Out(x, y, done, perm) == x;
    }
  }

  lemma DotSwap(a: Vec, x: Vec, i: nat, j: nat, n: nat)
    requires n <= |a| && n <= |x| && i < n && j < n
    ensures Dot(SwapAt(a, i, j), SwapAt(x, i, j), n) == Dot(a, x, n)
  {
    hide Dot, Mul, Add;
    if i == j {
      assert SwapAt(a, i, j) == a && SwapAt(x, i, j) == x;
    } else {
      DotReplace(a, x, i, a[j], x[j], n);
      DotReplace(a[i := a[j]], x[i := x[j]], j, a[i], x[i], n);
      var d, p, q := Dot(a, x, n), Mul(a[i], x[i]), Mul(a[j], x[j]);
      // (d + (p + q)) + (q + p) == d
      AddLaws(p, q, 0);
      AddLaws(d, Add(p, q), Add(p, q));
      AddLaws(Add(p, q), 0, 0);
      AddLaws(d, 0, 0);
    }
  }

  lemma SwapColumnsScrambled(a: Matrix, s: Matrix, s': Matrix, perm: seq<nat>, k: nat, i: nat, j: nat)
    requires Scrambled(a, s, perm, k) && i < k && j < k && IsMatrix(s', k, k)
    requires forall r :: 0 <= r < k ==> s'[r] == SwapAt(s[r], i, j)
    ensures Scrambled(a, s', SwapAt(perm, i, j), k)
  {
    hide Dot;
    forall x: Vec, y: Vec | |x| == k && |y| == k
      ensures AgreeGather(a, s', SwapAt(perm, i, j), x, y)
    {
      assert AgreeGather(a, s, perm, x, y);
      var u := Gather(y, perm);
      assert Gather(y, SwapAt(perm, i, j)) == SwapAt(u, i, j);
      forall r | 0 <= r < k
        ensures MatVec(s', SwapAt(u, i, j))[r] == MatVec(s, u)[r]
      {
        DotSwap(s[r], u, i, j, k);
      }
      assert MatVec(s', SwapAt(u, i, j)) == MatVec(s, u);
    }
  }

  lemma UnscrambledInverse(a: Matrix, s: Matrix, k: nat)
    requires Scrambled(a, s, seq(k, j => j), k)
    ensures Inverse(a, s, k)
  {
    hide MatVec, Dot;
    forall x: Vec, y: Vec | |x| == k && |y| == k
      ensures MatVec(a, x) == y <==> MatVec(s, y) == x
    {
      assert AgreeGather(a, s, seq(k, j => j), x, y);
      assert Gather(y, seq(k, j => j)) == y;
    }
  }
}
