// Swapping two elements, and properties of sequences that no rearrangement changes.
module Sequences {
  function SwapAt<T>(s: seq<T>, i: nat, j: nat): (s': seq<T>)
    requires i < |s| && j < |s|
    ensures |s'| == |s|
  {
    s[i := s[j]][j := s[i]]
  }

  lemma SwapPermutes<T>(s: seq<T>, i: nat, j: nat)
    requires i < |s| && j < |s|
    ensures multiset(SwapAt(s, i, j)) == multiset(s)
  {}

  ghost predicate Repeats<T>(s: seq<T>, x: T)
  {
    exists i, j :: 0 <= i < j < |s| && s[i] == s[j] == x
  }

  // Repetition is a matter of the multiset alone.
  lemma {:induction false} RepeatsIsCount<T>(s: seq<T>, x: T)
    ensures Repeats(s, x) <==> multiset(s)[x] >= 2
  {
    if |s| > 0 {
      var n := |s| - 1;
      RepeatsIsCount(s[..n], x);
      assert s == s[..n] + [s[n]];
      if Repeats(s, x) {
        var i, j :| 0 <= i < j < |s| && s[i] == s[j] == x;
        assert s[..n][i] == x;
        if j < n {
          assert s[..n][j] == x;
        } else {
          assert x in multiset(s[..n]);
        }
      }
      if multiset(s)[x] >= 2 && multiset(s[..n])[x] < 2 {
        assert x in multiset(s[..n]);
        var i :| 0 <= i < n && s[..n][i] == x;
        assert s[i] == s[n] == x;
      }
      if Repeats(s[..n], x) {
        var i, j :| 0 <= i < j < n && s[..n][i] == s[..n][j] == x;
        assert s[i] == s[j] == x;
      }
    }
  }

  ghost predicate AllDifferent<T>(s: seq<T>)
  {
    forall i, j :: 0 <= i < j < |s| ==> s[i] != s[j]
  }

  lemma AllDifferentPermuted<T>(s: seq<T>, s': seq<T>)
    requires multiset(s) == multiset(s') && AllDifferent(s)
    ensures AllDifferent(s')
  {
    forall i, j | 0 <= i < j < |s'|
      ensures s'[i] != s'[j]
    {
      if s'[i] == s'[j] {
        RepeatsIsCount(s', s'[i]);
        RepeatsIsCount(s, s'[i]);
      }
    }
  }

  lemma SameMembers<T>(s: seq<T>, s': seq<T>, x: T)
    requires multiset(s) == multiset(s') && x in s
    ensures x in s'
  {
    assert x in multiset(s');
  }

  ghost function Elements(s: seq<nat>): set<nat>
  {
    set i | 0 <= i < |s| :: s[i]
  }

  lemma {:induction false} ElementsSize(s: seq<nat>)
    requires AllDifferent(s)
    ensures |Elements(s)| == |s|
  {
    if s != [] {
      var n := |s| - 1;
      ElementsSize(s[..n]);
      assert Elements(s) == Elements(s[..n]) + {s[n]};
    }
  }

  ghost function Below(k: nat): (b: set<nat>)
    ensures |b| == k && forall i :: i in b <==> 0 <= i < k
  {
    if k == 0 then {} else Below(k - 1) + {k - 1}
  }

  // k different numbers below k are all of them.
  lemma Pigeonhole(s: seq<nat>, k: nat)
    requires AllDifferent(s) && |s| == k && forall i :: 0 <= i < k ==> s[i] < k
    ensures forall i: nat :: i < k ==> i in s
  {
    hide AllDifferent;
    ElementsSize(s);
    var e, b := Elements(s), Below(k);
    assert b == e + (b - e);
    assert |b - e| == 0;
    forall i: nat | i < k
      ensures i in s
    {
      assert i in b && i !in b - e;
    }
  }
}
