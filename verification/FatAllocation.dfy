/** First-fit allocation that reuses an owned chain first, and what it leaves intact. */
module FatAllocation {
  import opened Bytes
  import opened FatVolume
  import opened FatUpdate

  predicate Free(fat: seq<nat>, owned: seq<nat>, c: nat)
    requires c < |fat|
  {
    c !in owned && Entry(fat, c) == 0
  }

  /** The free clusters from `c` on, in ascending order. */
  function FreeFrom(fat: seq<nat>, owned: seq<nat>, c: nat): (s: seq<nat>)
    decreases |fat| - c
  {
    if c >= |fat| then []
    else (if Free(fat, owned, c) then [c] else []) + FreeFrom(fat, owned, c + 1)
  }

  function Reused(owned: seq<nat>, count: nat): (s: seq<nat>) {
    if count <= |owned| then owned[..count] else owned
  }

  predicate Enough(fat: seq<nat>, owned: seq<nat>, count: nat) {
    0 < count <= |fat| - 2 && count <= |owned| + |FreeFrom(fat, owned, 2)|
  }

  /** The clusters an allocation takes: the owned chain first, then the lowest free ones. */
  function Selected(fat: seq<nat>, owned: seq<nat>, count: nat): (s: seq<nat>)
    requires Enough(fat, owned, count)
    ensures |s| == count
  {
    Reused(owned, count) + FreeFrom(fat, owned, 2)[..count - |Reused(owned, count)|]
  }

  /** Ascending, free, and complete from `c` on. */
  ghost predicate FreeList(fat: seq<nat>, owned: seq<nat>, c: nat, s: seq<nat>) {
    && (forall i :: 0 <= i < |s| ==> c <= s[i] < |fat| && Free(fat, owned, s[i]))
    && (forall i, j :: 0 <= i < j < |s| ==> s[i] < s[j])
    && (forall x :: c <= x < |fat| && Free(fat, owned, x) ==> x in s)
  }

  lemma {:induction false} FreeFromSpec(fat: seq<nat>, owned: seq<nat>, c: nat)
    ensures FreeList(fat, owned, c, FreeFrom(fat, owned, c))
    decreases |fat| - c
  {
    if c < |fat| {
      FreeFromSpec(fat, owned, c + 1);
      FreeListStep(fat, owned, c, FreeFrom(fat, owned, c + 1));
    }
  }

  lemma FreeListStep(fat: seq<nat>, owned: seq<nat>, c: nat, rest: seq<nat>)
    requires c < |fat| && FreeList(fat, owned, c + 1, rest)
    ensures FreeList(fat, owned, c, (if Free(fat, owned, c) then [c] else []) + rest)
  {
    var all := (if Free(fat, owned, c) then [c] else []) + rest;
    forall x | c <= x < |fat| && Free(fat, owned, x) ensures x in all {
      if x > c { assert x in rest; } else { assert x == all[0]; }
    }
  }

  /** A chain the caller may hand back: distinct clusters in range, none of them free. */
  predicate Owned(fat: seq<nat>, owned: seq<nat>) {
    && Distinct(owned)
    && forall i :: 0 <= i < |owned| ==> InRange(fat, owned[i]) && Entry(fat, owned[i]) != 0
  }

  lemma ChainIsOwned(fat: seq<nat>, s: seq<nat>)
    requires IsChain(fat, s)
    ensures Owned(fat, s)
  {
    forall i | 0 <= i < |s| ensures InRange(fat, s[i]) && Entry(fat, s[i]) != 0 {
      if i + 1 < |s| {
        assert LinkAt(fat, s, i);
        assert InRange(fat, s[i + 1]);
      }
    }
  }

  ghost predicate GoodChoice(fat: seq<nat>, owned: seq<nat>, s: seq<nat>) {
    && Distinct(s)
    && (forall i :: 0 <= i < |s| ==> InRange(fat, s[i]))
    && (forall i :: 0 <= i < |s| ==> s[i] in owned || Entry(fat, s[i]) == 0)
    && (forall i :: 0 <= i < |owned| && i < |s| ==> s[i] == owned[i])
  }

  lemma SelectedSpec(fat: seq<nat>, owned: seq<nat>, count: nat)
    requires Enough(fat, owned, count) && Owned(fat, owned)
    ensures GoodChoice(fat, owned, Selected(fat, owned, count))
  {
    FreeFromSpec(fat, owned, 2);
    JoinChoice(fat, owned, Reused(owned, count), FreeFrom(fat, owned, 2), count);
  }

  lemma SelectedShape(fat: seq<nat>, owned: seq<nat>, count: nat)
    requires Enough(fat, owned, count) && Owned(fat, owned)
    ensures var s := Selected(fat, owned, count);
      |s| == count > 0 && Distinct(s) && forall i :: 0 <= i < |s| ==> InRange(fat, s[i])
  {
    SelectedSpec(fat, owned, count);
  }

  lemma JoinChoice(fat: seq<nat>, owned: seq<nat>, reused: seq<nat>, free: seq<nat>, count: nat)
    requires Owned(fat, owned) && FreeList(fat, owned, 2, free)
    requires reused == Reused(owned, count) && count <= |reused| + |free|
    ensures GoodChoice(fat, owned, reused + free[..count - |reused|])
  {
    var s := reused + free[..count - |reused|];
    forall i | 0 <= i < |s|
      ensures s[i] == if i < |reused| then owned[i] else free[i - |reused|]
    {
    }
    forall i, j | 0 <= i < j < |s| ensures s[i] != s[j] {
      if i < |reused| <= j {
        assert Free(fat, owned, free[j - |reused|]);
      }
    }
  }

  /** What the table holds for the `i`th cluster of a chain. */
  function Successor(s: seq<nat>, i: nat): nat
    requires i < |s|
  {
    if i + 1 < |s| then s[i + 1] else END_OF_CHAIN
  }

  /** Exactly the table an allocation leaves behind. */
  ghost predicate Allocated(fat: seq<nat>, fat': seq<nat>, owned: seq<nat>, s: seq<nat>) {
    && |fat'| == |fat|
    && (forall c :: 0 <= c < |fat| ==> fat'[c] / ENTRY_SPAN == fat[c] / ENTRY_SPAN)
    && (forall i :: 0 <= i < |s| ==> s[i] < |fat| && Entry(fat', s[i]) == Successor(s, i))
    && (forall c :: 0 <= c < |fat| && c in owned && c !in s ==> Entry(fat', c) == 0)
    && (forall c :: 0 <= c < |fat| && c !in owned && c !in s ==> fat'[c] == fat[c])
  }

  /** The allocated clusters are a chain, walked back in the order they were chosen. */
  lemma AllocatedIsChain(fat: seq<nat>, fat': seq<nat>, owned: seq<nat>, s: seq<nat>)
    requires s != [] && Distinct(s) && (forall i :: 0 <= i < |s| ==> InRange(fat, s[i]))
    requires Allocated(fat, fat', owned, s)
    ensures IsChain(fat', s)
  {
    forall i | 0 <= i < |s| - 1 ensures LinkAt(fat', s, i) {
      assert Entry(fat', s[i]) == Successor(s, i);
    }
    assert Entry(fat', s[|s| - 1]) == END_OF_CHAIN;
  }

  ghost function FreeSet(fat: seq<nat>): set<nat> {
    set c | 2 <= c < |fat| && Entry(fat, c) == 0
  }

  lemma FreeSetAfter(fat: seq<nat>, fat': seq<nat>, owned: seq<nat>, s: seq<nat>)
    requires GoodChoice(fat, owned, s) && Owned(fat, owned) && Allocated(fat, fat', owned, s)
    ensures FreeSet(fat') == (FreeSet(fat) + Elements(owned)) - Elements(s)
    ensures Elements(s) <= FreeSet(fat) + Elements(owned)
    ensures FreeSet(fat) !! Elements(owned)
  {
    forall c ensures c in FreeSet(fat') <==> c in (FreeSet(fat) + Elements(owned)) - Elements(s) {
      assert c in Elements(s) <==> c in s;
      assert c in Elements(owned) <==> c in owned;
      if c in s {
        var i :| 0 <= i < |s| && s[i] == c;
        assert Successor(s, i) != 0 && Entry(fat', s[i]) == Successor(s, i);
      }
    }
    forall c | c in Elements(s) ensures c in FreeSet(fat) + Elements(owned) {
      var i :| 0 <= i < |s| && s[i] == c;
      assert InRange(fat, s[i]);
    }
  }

  /** Conservation: the free clusters change by exactly what was owned less what was taken. */
  lemma FreeConservation(fat: seq<nat>, fat': seq<nat>, owned: seq<nat>, count: nat)
    requires Enough(fat, owned, count) && Owned(fat, owned)
    requires Allocated(fat, fat', owned, Selected(fat, owned, count))
    ensures |FreeSet(fat')| == |FreeSet(fat)| + |owned| - count
  {
    var s := Selected(fat, owned, count);
    SelectedSpec(fat, owned, count);
    FreeSetAfter(fat, fat', owned, s);
    DistinctCount(s);
    DistinctCount(owned);
    Cardinalities(FreeSet(fat), Elements(owned), Elements(s));
  }

  lemma FreeFromCount(fat: seq<nat>, owned: seq<nat>)
    requires Owned(fat, owned)
    ensures |FreeFrom(fat, owned, 2)| == |FreeSet(fat)|
  {
    FreeFromSpec(fat, owned, 2);
    ListCount(fat, owned, FreeFrom(fat, owned, 2));
  }

  lemma ListCount(fat: seq<nat>, owned: seq<nat>, s: seq<nat>)
    requires Owned(fat, owned) && FreeList(fat, owned, 2, s)
    ensures |s| == |FreeSet(fat)|
  {
    forall c ensures c in Elements(s) <==> c in FreeSet(fat) {
      if c in Elements(s) {
        var i :| 0 <= i < |s| && s[i] == c;
        assert Free(fat, owned, s[i]);
      }
      if c in FreeSet(fat) {
        assert Free(fat, owned, c);
        assert c in s;
      }
    }
    assert Elements(s) == FreeSet(fat);
    DistinctCount(s);
  }

  /** When an allocation fails, the free and the owned clusters together are too few. */
  lemma NotEnough(fat: seq<nat>, owned: seq<nat>, count: nat)
    requires Owned(fat, owned) && 2 <= |fat| && 0 < count && !Enough(fat, owned, count)
    ensures |FreeSet(fat)| + |owned| < count
  {
    FreeFromCount(fat, owned);
    DistinctCount(owned);
    var all := FreeSet(fat) + Elements(owned);
    assert FreeSet(fat) !! Elements(owned);
    SubsetCount(all, Interval(2, |fat|));
  }

  /** Exactly when an allocation succeeds, in owned and free clusters. */
  lemma EnoughIff(fat: seq<nat>, owned: seq<nat>, count: nat)
    requires Owned(fat, owned) && 2 <= |fat|
    ensures Enough(fat, owned, count) <==> 0 < count <= |FreeSet(fat)| + |owned|
  {
    hide FreeSet, Owned;
    FreeFromCount(fat, owned);
    if count > 0 && !Enough(fat, owned, count) {
      NotEnough(fat, owned, count);
    }
  }

  lemma Cardinalities(a: set<nat>, b: set<nat>, c: set<nat>)
    requires a !! b && c <= a + b
    ensures |(a + b) - c| == |a| + |b| - |c|
  {
    assert a + b == ((a + b) - c) + c;
  }

  /** No cluster of the chain is owned or chosen. */
  predicate Apart(chain: seq<nat>, owned: seq<nat>, s: seq<nat>) {
    Disjoint(chain, owned) && Disjoint(chain, s)
  }

  /** A chain apart from the owned one is apart from every choice. */
  lemma OthersApart(fat: seq<nat>, chain: seq<nat>, owned: seq<nat>, s: seq<nat>)
    requires IsChain(fat, chain) && GoodChoice(fat, owned, s) && Disjoint(chain, owned)
    ensures Apart(chain, owned, s)
  {
    ChainIsOwned(fat, chain);
    forall i, j | 0 <= i < |chain| && 0 <= j < |s| ensures chain[i] != s[j] {
      assert s[j] in owned || Entry(fat, s[j]) == 0;
    }
  }

  lemma ApartChainKept(fat: seq<nat>, fat': seq<nat>, chain: seq<nat>, owned: seq<nat>, s: seq<nat>)
    requires IsChain(fat, chain) && Apart(chain, owned, s) && Allocated(fat, fat', owned, s)
    ensures IsChain(fat', chain)
  {
    forall i | 0 <= i < |chain| ensures Entry(fat', chain[i]) == Entry(fat, chain[i]) {
      assert chain[i] !in owned && chain[i] !in s;
    }
    ChainFrame(fat, fat', chain);
  }

  /** Allocation keeps all chains apart when the owned chain is the one being replaced. */
  lemma AllocationKeepsChains(fat: seq<nat>, fat': seq<nat>, chains: map<nat, seq<nat>>, owned: seq<nat>, s: seq<nat>)
    requires ChainsOk(fat, chains)
    requires s != [] && GoodChoice(fat, owned, s) && Allocated(fat, fat', owned, s)
    requires owned == [] || (owned[0] in chains && chains[owned[0]] == owned)
    ensures ChainsOk(fat', chains[s[0] := s])
    ensures owned == [] ==> s[0] !in chains
    ensures owned != [] ==> s[0] == owned[0]
    ensures forall k :: k in chains && k != s[0] ==> Apart(chains[k], owned, s)
  {
    AllocatedIsChain(fat, fat', owned, s);
    forall k | k in chains && (owned == [] || k != owned[0])
      ensures Apart(chains[k], owned, s) && IsChain(fat', chains[k]) && k != s[0]
    {
      OthersApart(fat, chains[k], owned, s);
      ApartChainKept(fat, fat', chains[k], owned, s);
      assert chains[k][0] == k;
    }
    WithChain(fat', chains, s);
  }

  lemma WithChain(fat: seq<nat>, chains: map<nat, seq<nat>>, s: seq<nat>)
    requires IsChain(fat, s)
    requires forall k :: k in chains && k != s[0] ==>
      IsChain(fat, chains[k]) && chains[k][0] == k && Disjoint(chains[k], s)
    requires forall k, l :: k in chains && l in chains && k != l ==> Disjoint(chains[k], chains[l])
    ensures ChainsOk(fat, chains[s[0] := s])
  {
  }

  /** The part of the owned chain an allocation gives back. */
  function Surplus(owned: seq<nat>, count: nat): (s: seq<nat>) {
    if count <= |owned| then owned[count..] else []
  }

  /** Entries of the released clusters are cleared, all others kept. */
  ghost predicate Cleared(fat: seq<nat>, fat': seq<nat>, released: seq<nat>) {
    && |fat'| == |fat|
    && (forall c :: 0 <= c < |fat| ==> fat'[c] / ENTRY_SPAN == fat[c] / ENTRY_SPAN)
    && (forall c :: 0 <= c < |fat| && c in released ==> Entry(fat', c) == 0)
    && (forall c :: 0 <= c < |fat| && c !in released ==> fat'[c] == fat[c])
  }

  /** Data of the released clusters is zeroed, all other data kept. */
  ghost predicate Wiped(data: seq<seq<byte>>, data': seq<seq<byte>>, released: seq<nat>, size: nat) {
    && |data'| == |data|
    && (forall c :: 0 <= c < |data| ==> data'[c] == if c in released then Zeros(size) else data[c])
  }

  lemma NothingCleared(fat: seq<nat>, data: seq<seq<byte>>, size: nat)
    ensures Cleared(fat, fat, []) && Wiped(data, data, [], size)
  {
  }

  lemma ClearedNext(fat: seq<nat>, table: seq<nat>, released: seq<nat>, c: nat)
    requires Cleared(fat, table, released) && c < |table|
    ensures Cleared(fat, table[c := WithEntry(table[c], 0)], released + [c])
  {
  }

  lemma WipedNext(data: seq<seq<byte>>, blocks: seq<seq<byte>>, released: seq<nat>, c: nat, size: nat)
    requires Wiped(data, blocks, released, size) && c < |blocks|
    ensures Wiped(data, blocks[c := Zeros(size)], released + [c], size)
  {
    hide Zeros;
  }

  lemma SurplusIsRest(fat: seq<nat>, owned: seq<nat>, count: nat, c: nat)
    requires Enough(fat, owned, count) && Owned(fat, owned)
    ensures c in Surplus(owned, count) <==> c in owned && c !in Selected(fat, owned, count)
  {
    var s := Selected(fat, owned, count);
    FreeFromSpec(fat, owned, 2);
    var all := FreeFrom(fat, owned, 2);
    if c in owned {
      var i :| 0 <= i < |owned| && owned[i] == c;
      if i < count {
        assert s[i] == c;
        assert forall k :: 0 <= k < |Surplus(owned, count)| ==> Surplus(owned, count)[k] == owned[count + k];
      } else {
        assert Surplus(owned, count)[i - count] == c;
        assert s == owned[..count];
      }
    }
  }

  /** Linking the chosen clusters and clearing the surplus is the whole allocation. */
  lemma AllocationSteps(fat: seq<nat>, linked: seq<nat>, fat': seq<nat>, owned: seq<nat>, count: nat)
    requires Enough(fat, owned, count) && Owned(fat, owned)
    requires Allocated(fat, linked, [], Selected(fat, owned, count))
    requires Cleared(linked, fat', Surplus(owned, count))
    ensures Allocated(fat, fat', owned, Selected(fat, owned, count))
  {
    var s := Selected(fat, owned, count);
    forall c ensures c in Surplus(owned, count) <==> c in owned && c !in s {
      SurplusIsRest(fat, owned, count, c);
    }
    forall i | 0 <= i < |s| ensures s[i] < |fat| && Entry(fat', s[i]) == Successor(s, i) {
      assert Entry(linked, s[i]) == Successor(s, i);
      assert s[i] in s;
    }
  }

  /** Clusters needed for `n` bytes. */
  function ClusterCount(n: nat, clusterSize: nat): (q: nat)
    requires clusterSize > 0
    ensures q * clusterSize >= n && (n > 0 ==> q > 0)
  {
    var total := n + clusterSize - 1;
    assert total == total / clusterSize * clusterSize + total % clusterSize;
    total / clusterSize
  }
}
