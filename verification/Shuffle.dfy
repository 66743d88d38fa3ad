// Moving the received native packets to their own places.
module Shuffle {
  import opened Gf
  import opened Sequences

  ghost predicate Clash(s: seq<nat>, k: nat)
  {
    exists i, j :: 0 <= i < j < |s| && s[i] == s[j] && s[i] < k
  }

  lemma ClashPermuted(s: seq<nat>, s': seq<nat>, k: nat)
    requires multiset(s) == multiset(s') && Clash(s, k)
    ensures Clash(s', k)
  {
    var i, j :| 0 <= i < j < |s| && s[i] == s[j] && s[i] < k;
    RepeatsIsCount(s, s[i]);
    RepeatsIsCount(s', s[i]);
  }

  ghost function Pairs(index: seq<nat>, pkt: seq<array<gf>>): (p: seq<(nat, array<gf>)>)
    requires |index| == |pkt|
    ensures |p| == |index| && forall i :: 0 <= i < |p| ==> p[i] == (index[i], pkt[i])
  {
    seq(|index|, i requires 0 <= i < |index| => (index[i], pkt[i]))
  }

  ghost function Misplaced(index: seq<nat>): set<int>
  {
    set i | 0 <= i < |index| && index[i] != i
  }

  ghost function Packets(pkt: array<array<gf>>, k: nat): (p: seq<array<gf>>)
    requires k <= pkt.Length
    reads pkt
    ensures |p| == k && forall i :: 0 <= i < k ==> p[i] == pkt[i]
  {
    pkt[..k]
  }

  // The second pairing of indices and packets is a rearrangement of the first.
  ghost predicate Rearranged(index: seq<nat>, pkt: seq<array<gf>>, index': seq<nat>, pkt': seq<array<gf>>)
    requires |index| == |pkt| && |index'| == |pkt'|
  {
    && |index'| == |index|
    && multiset(index') == multiset(index)
    && multiset(pkt') == multiset(pkt)
    && multiset(Pairs(index', pkt')) == multiset(Pairs(index, pkt))
  }

  // One exchange of the loop puts c where it belongs and disturbs nothing that was in place.
  lemma SwapStep(index0: seq<nat>, pkt0: seq<array<gf>>, index: seq<nat>, pkt: seq<array<gf>>, i: nat, c: nat)
    requires |index0| == |pkt0| && |index| == |pkt| && Rearranged(index0, pkt0, index, pkt)
    requires i < |index| && c < |index| && index[i] == c && i != c && index[c] != c
    ensures Misplaced(SwapAt(index, i, c)) < Misplaced(index)
    ensures Rearranged(index0, pkt0, SwapAt(index, i, c), SwapAt(pkt, i, c))
  {
    SwapPermutes(index, i, c);
    SwapPermutes(pkt, i, c);
    SwapPermutes(Pairs(index, pkt), i, c);
    assert Pairs(SwapAt(index, i, c), SwapAt(pkt, i, c)) == SwapAt(Pairs(index, pkt), i, c);
    assert c in Misplaced(index) && c !in Misplaced(SwapAt(index, i, c));
  }

  lemma ClashRearranged(index: seq<nat>, pkt: seq<array<gf>>, index': seq<nat>, pkt': seq<array<gf>>, k: nat)
    requires |index| == |pkt| && |index'| == |pkt'| && Rearranged(index, pkt, index', pkt')
    ensures Clash(index, k) <==> Clash(index', k)
  {
    hide Clash;
    if Clash(index, k) {
      ClashPermuted(index, index', k);
    }
    if Clash(index', k) {
      ClashPermuted(index', index, k);
    }
  }

  lemma PlacedNoClash(index: seq<nat>, k: nat)
    requires |index| == k && forall i :: 0 <= i < k ==> index[i] >= k || index[i] == i
    ensures !Clash(index, k)
  {}

  // Returns 1 exactly when some index below k occurs twice; otherwise every index below k ends at its own place.
  method ShufflePackets(pkt: array<array<gf>>, index: array<nat>, k: nat) returns (error: nat)
    requires k <= pkt.Length && k <= index.Length
    modifies pkt, index
    ensures error == 0 || error == 1
    ensures error == 1 <==> Clash(old(index[..k]), k)
    ensures error == 0 ==> forall i :: 0 <= i < k ==> index[i] >= k || index[i] == i
    ensures Rearranged(old(index[..k]), old(Packets(pkt, k)), index[..k], Packets(pkt, k))
    ensures forall m :: k <= m < index.Length ==> index[m] == old(index[m])
    ensures forall m :: k <= m < pkt.Length ==> pkt[m] == old(pkt[m])
  {
    hide Rearranged, Clash, Misplaced, Packets;
    assert Rearranged(index[..k], Packets(pkt, k), index[..k], Packets(pkt, k)) by {
      RearrangedRefl(index[..k], Packets(pkt, k));
    }
    var i := 0;
    while i < k
      invariant i <= k
      invariant forall m :: 0 <= m < i ==> index[m] >= k || index[m] == m
      invariant Rearranged(old(index[..k]), old(Packets(pkt, k)), index[..k], Packets(pkt, k))
      invariant forall m :: k <= m < index.Length ==> index[m] == old(index[m])
      invariant forall m :: k <= m < pkt.Length ==> pkt[m] == old(pkt[m])
      decreases Misplaced(index[..k]), k - i
    {
      if index[i] >= k || index[i] == i {
        i := i + 1;
      } else {
        var c := index[i];
        ghost var s, p := index[..k], Packets(pkt, k);
        if index[c] == c {
          ClashFound(s, i, c, k);
          ClashRearranged(old(index[..k]), old(Packets(pkt, k)), s, p, k);
          return 1;
        }
        SwapStep(old(index[..k]), old(Packets(pkt, k)), s, p, i, c);
        index[i], index[c] := index[c], index[i];
        pkt[i], pkt[c] := pkt[c], pkt[i];
        assert index[..k] == SwapAt(s, i, c);
        assert Packets(pkt, k) == SwapAt(p, i, c);
      }
    }
    PlacedNoClash(index[..k], k);
    ClashRearranged(old(index[..k]), old(Packets(pkt, k)), index[..k], Packets(pkt, k), k);
    error := 0;
  }

  lemma RearrangedRefl(index: seq<nat>, pkt: seq<array<gf>>)
    requires |index| == |pkt|
    ensures Rearranged(index, pkt, index, pkt)
  {}

  lemma ClashFound(index: seq<nat>, i: nat, c: nat, k: nat)
    requires i < |index| && c < |index| && i != c && c < k && index[i] == c && index[c] == c
    ensures Clash(index, k)
  {
    if i < c {
      assert index[i] == index[c];
    } else {
      assert index[c] == index[i];
    }
  }
}
