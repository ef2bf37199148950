/**
 The value-level steps behind the composer's operations: walking chains, listing and
 growing directories, and creating or replacing a file.
 */
module FatStore {
  import opened Bytes
  import opened FatVolume
  import opened FatUpdate
  import opened FatAllocation

  /** A directory entry with the place it was read from. */
  datatype Located = Located(cluster: nat, index: nat, entry: slot)

  ghost predicate NoChainFrom(fat: seq<nat>, start: nat) {
    forall s: seq<nat> :: IsChain(fat, s) ==> s[0] != start
  }

  lemma ChainExists(fat: seq<nat>, s: seq<nat>, start: nat)
    requires IsChain(fat, s) && s[0] == start
    ensures !NoChainFrom(fat, start)
  {
  }

  /** A walk that arrived at `cluster` pins down the next cluster of every chain from its start. */
  lemma NextInChain(fat: seq<nat>, w: seq<nat>, start: nat, cluster: nat, s: seq<nat>)
    requires |fat| <= EOC_MIN && IsChain(fat, s) && s[0] == start && Linked(fat, w)
    requires if w == [] then cluster == start
             else w[0] == start && Entry(fat, w[|w| - 1]) == cluster && cluster < EOC_MIN
    ensures |w| < |s| && w <= s && s[|w|] == cluster
  {
    if w != [] {
      WalkIsPrefix(fat, w, s);
      assert w[|w| - 1] == s[|w| - 1];
      assert LinkAt(fat, s, |w| - 1);
    }
  }

  lemma ChainContinues(fat: seq<nat>, s: seq<nat>, i: nat)
    requires IsChain(fat, s) && i < |s|
    ensures InRange(fat, s[i]) && (Entry(fat, s[i]) >= EOC_MIN || InRange(fat, Entry(fat, s[i])))
  {
    if i + 1 < |s| {
      assert LinkAt(fat, s, i) && InRange(fat, s[i + 1]);
    }
  }

  /** Why a walk that cannot continue refutes every chain from its start. */
  lemma DeadEnd(fat: seq<nat>, w: seq<nat>, start: nat, cluster: nat)
    requires 3 <= |fat| <= 0x0FFF_FFEF && Linked(fat, w)
    requires if w == [] then cluster == start
             else w[0] == start && Entry(fat, w[|w| - 1]) == cluster && cluster < EOC_MIN
    requires || cluster in w || |w| >= |fat| - 2 || !InRange(fat, cluster)
             || (Entry(fat, cluster) < EOC_MIN && !InRange(fat, Entry(fat, cluster)))
    ensures NoChainFrom(fat, start)
  {
    forall s: seq<nat> | IsChain(fat, s) ensures s[0] != start {
      if s[0] == start {
        NextInChain(fat, w, start, cluster, s);
        ChainFits(fat, s);
        assert InRange(fat, s[|w|]);
        ChainContinues(fat, s, |w|);
      }
    }
  }

  lemma StepLinked(fat: seq<nat>, w: seq<nat>, c: nat)
    requires Linked(fat, w) && InRange(fat, c) && (w != [] ==> Entry(fat, w[|w| - 1]) == c)
    ensures Linked(fat, w + [c])
  {
    var w' := w + [c];
    forall i | 0 <= i < |w'| - 1 ensures LinkAt(fat, w', i) {
      if i + 1 < |w| { assert LinkAt(fat, w, i); }
    }
  }

  // ---- Listings

  ghost predicate Ended(es: seq<slot>, n: nat) {
    exists k :: 0 <= k < n && k < |es| && es[k][0] == 0
  }

  /** The listing of a directory: every place, with zero bytes once the end mark was seen. */
  ghost predicate Listed(es: seq<slot>, ps: seq<(nat, nat)>, ls: seq<Located>) {
    && |es| == |ps| == |ls|
    && forall i :: 0 <= i < |ls| ==>
         && (ls[i].cluster, ls[i].index) == ps[i]
         && ls[i].entry == if Ended(es, i) then Zeros(32) else es[i]
  }

  lemma EndedStep(es: seq<slot>, e: slot, n: nat)
    requires n <= |es| + 1
    ensures Ended(es + [e], n) <==> Ended(es, n) || (n == |es| + 1 && e[0] == 0)
  {
    var es' := es + [e];
    if Ended(es', n) {
      var k :| 0 <= k < n && k < |es'| && es'[k][0] == 0;
      if k < |es| { assert es[k][0] == 0; }
    }
    if Ended(es, n) {
      var k :| 0 <= k < n && k < |es| && es[k][0] == 0;
      assert es'[k][0] == 0;
    }
    if n == |es| + 1 && e[0] == 0 {
      assert es'[|es|][0] == 0;
    }
  }

  lemma ListOne(es: seq<slot>, ps: seq<(nat, nat)>, ls: seq<Located>, e: slot, p: (nat, nat))
    requires Listed(es, ps, ls)
    ensures Listed(es + [e], ps + [p], ls + [Located(p.0, p.1, if Ended(es, |es|) then Zeros(32) else e)])
    ensures Ended(es + [e], |es| + 1) <==> Ended(es, |es|) || e[0] == 0
  {
    forall i | 0 <= i <= |es| + 1 ensures Ended(es + [e], i) <==> Ended(es, i) || (i == |es| + 1 && e[0] == 0) {
      EndedStep(es, e, i);
    }
    assert Ended(es, |es| + 1) <==> Ended(es, |es|);
  }

  lemma ListNext(es: seq<slot>, own: seq<slot>, ps: seq<(nat, nat)>, at: seq<(nat, nat)>, ls: seq<Located>, j: nat)
    requires j < |own| == |at| && Listed(es + own[..j], ps + at[..j], ls)
    ensures Listed(es + own[..j + 1], ps + at[..j + 1],
                   ls + [Located(at[j].0, at[j].1, if Ended(es + own[..j], |ls|) then Zeros(32) else own[j])])
    ensures Ended(es + own[..j + 1], |ls| + 1) <==> Ended(es + own[..j], |ls|) || own[j][0] == 0
  {
    ListOne(es + own[..j], ps + at[..j], ls, own[j], at[j]);
    assert es + own[..j + 1] == es + own[..j] + [own[j]];
    assert ps + at[..j + 1] == ps + at[..j] + [at[j]];
  }

  lemma ListedLength(es: seq<slot>, ps: seq<(nat, nat)>, ls: seq<Located>)
    requires Listed(es, ps, ls)
    ensures |es| == |ps| == |ls|
  {
  }

  /** The slots and places of a single cluster. */
  lemma OneCluster(data: seq<seq<byte>>, c: nat, size: nat)
    requires c < |data| && |data[c]| == size
    ensures Slots(data, [c]) == ClusterSlots(data[c]) && |Places(data, [c])| == |ClusterSlots(data[c])| == size / 32
    ensures forall j :: 0 <= j < size / 32 ==>
      Places(data, [c])[j] == (c, j) && ClusterSlots(data[c])[j] == data[c][32 * j..32 * j + 32]
  {
  }

  /** In a tidy directory the listing shows exactly the entries in use. */
  lemma ListedTidy(es: seq<slot>, ps: seq<(nat, nat)>, ls: seq<Located>)
    requires Listed(es, ps, ls) && Tidy(es)
    ensures forall i :: 0 <= i < |ls| ==>
      ls[i].entry[0] == es[i][0] && (InUse(es[i]) ==> ls[i].entry == es[i])
  {
    forall i | 0 <= i < |ls|
      ensures ls[i].entry[0] == es[i][0] && (InUse(es[i]) ==> ls[i].entry == es[i])
    {
      if Ended(es, i) {
        var k :| 0 <= k < i && k < |es| && es[k][0] == 0;
        assert es[i][0] == 0;
      }
    }
  }

  /** The first slot a new entry may take. */
  ghost predicate FirstVacant(es: seq<slot>, i: nat) {
    i < |es| && Vacant(es[i]) && forall k :: 0 <= k < i ==> !Vacant(es[k])
  }

  /** The clusters one more entry costs: none while a slot is vacant, else one. */
  ghost function Spare(es: seq<slot>): (n: nat) {
    if exists i :: 0 <= i < |es| && Vacant(es[i]) then 0 else 1
  }

  /** What a listing says about the first vacancy of a tidy directory. */
  lemma ListedVacancy(es: seq<slot>, ps: seq<(nat, nat)>, ls: seq<Located>, k: nat)
    requires Listed(es, ps, ls) && Tidy(es) && k <= |ls|
    requires forall j :: 0 <= j < k ==> !Vacant(ls[j].entry)
    requires k < |ls| ==> Vacant(ls[k].entry)
    ensures |es| == |ps| == |ls|
    ensures k < |ls| ==> FirstVacant(es, k) && ps[k] == (ls[k].cluster, ls[k].index)
    ensures k == |ls| ==> forall j :: 0 <= j < |es| ==> !Vacant(es[j])
  {
    ListedTidy(es, ps, ls);
  }

  lemma ListedAt(es: seq<slot>, ps: seq<(nat, nat)>, ls: seq<Located>, i: nat)
    requires Listed(es, ps, ls) && i < |es|
    ensures |es| == |ps| == |ls| && ps[i] == (ls[i].cluster, ls[i].index)
  {
  }

  predicate IsMatch(e: slot, name: seq<byte>) {
    InUse(e) && Name(e) == name
  }

  /** No slot in use carries the name. */
  ghost predicate NameFree(es: seq<slot>, name: seq<byte>) {
    forall k :: 0 <= k < |es| ==> !(InUse(es[k]) && Name(es[k]) == name)
  }

  /** The positions of a listing that carry a name, in order. */
  ghost predicate MatchesOf(ls: seq<Located>, name: seq<byte>, m: seq<nat>) {
    && (forall k :: 0 <= k < |m| ==> m[k] < |ls|)
    && (forall k, l :: 0 <= k < l < |m| ==> m[k] < m[l])
    && (forall i :: 0 <= i < |ls| ==> (i in m <==> IsMatch(ls[i].entry, name)))
  }

  /** Slot `i` alone has the name, and it is a file with a chain. */
  ghost predicate Replaceable(cat: Catalog, es: seq<slot>, name: seq<byte>, i: nat) {
    && i < |es| && Storable(es, i, name) && IsMatch(es[i], name) && !IsDirectory(es[i])
    && FirstCluster(es[i]) != 0 && FirstCluster(es[i]) in cat.chains
  }

  /** There is room for a file of `n` bytes: as a new entry, or over the chain of the only one of its name. */
  ghost predicate PutFits(v: Volume, cat: Catalog, directory: nat, name: seq<byte>, n: nat)
    requires HasChains(v, cat) && directory in cat.dirs && v.clusterSize > 0
  {
    var es, count, free := Dir(v, cat, directory), ClusterCount(n, v.clusterSize), |FreeSet(v.fat)|;
    && n > 0
    && (|| (NameFree(es, name) && count + Spare(es) <= free)
        || (exists i ::
              0 <= i < |es| && Replaceable(cat, es, name, i) && count <= free + |cat.chains[FirstCluster(es[i])]|))
  }

  /** There is room for a directory: a new one, or the only entry of its name. */
  ghost predicate DirectoryFits(v: Volume, cat: Catalog, parent: nat, name: seq<byte>)
    requires HasChains(v, cat) && parent in cat.dirs
  {
    var es := Dir(v, cat, parent);
    || (NameFree(es, name) && 1 + Spare(es) <= |FreeSet(v.fat)|)
    || (exists c :: OnlyDirectory(es, name, c))
  }

  /** Two entries of one name: it is neither free nor the name of only one. */
  ghost predicate Ambiguous(es: seq<slot>, name: seq<byte>) {
    !NameFree(es, name) && forall i :: 0 <= i < |es| && IsMatch(es[i], name) ==> !Storable(es, i, name)
  }

  lemma AmbiguousFails(v: Volume, cat: Catalog, d: nat, name: seq<byte>, n: nat)
    requires HasChains(v, cat) && d in cat.dirs && v.clusterSize > 0 && Ambiguous(Dir(v, cat, d), name)
    ensures !PutFits(v, cat, d, name, n) && !DirectoryFits(v, cat, d, name)
  {
    hide NameFree, Storable, IsMatch;
  }

  /** The only entry of a name decides. */
  lemma OnlyDecides(v: Volume, cat: Catalog, d: nat, name: seq<byte>, n: nat, i: nat)
    requires HasChains(v, cat) && d in cat.dirs && v.clusterSize > 0
    requires i < |Dir(v, cat, d)| && Storable(Dir(v, cat, d), i, name) && IsMatch(Dir(v, cat, d)[i], name)
    ensures PutFits(v, cat, d, name, n) <==>
      n > 0 && Replaceable(cat, Dir(v, cat, d), name, i)
      && ClusterCount(n, v.clusterSize) <= |FreeSet(v.fat)| + |cat.chains[FirstCluster(Dir(v, cat, d)[i])]|
    ensures DirectoryFits(v, cat, d, name) <==> IsDirectory(Dir(v, cat, d)[i])
  {
    hide FreeSet, ClusterCount, FirstCluster, Spare;
    var es := Dir(v, cat, d);
    NameTaken(es, name, i);
    forall j | 0 <= j < |es| && j != i ensures !IsMatch(es[j], name) {
    }
    if IsDirectory(es[i]) {
      SoleDirectory(es, name, i);
    }
  }

  lemma NewDecides(v: Volume, cat: Catalog, d: nat, name: seq<byte>, n: nat)
    requires HasChains(v, cat) && d in cat.dirs && v.clusterSize > 0 && NameFree(Dir(v, cat, d), name)
    ensures PutFits(v, cat, d, name, n) <==>
      n > 0 && ClusterCount(n, v.clusterSize) + Spare(Dir(v, cat, d)) <= |FreeSet(v.fat)|
    ensures DirectoryFits(v, cat, d, name) <==> 1 + Spare(Dir(v, cat, d)) <= |FreeSet(v.fat)|
  {
    hide FreeSet, ClusterCount, FirstCluster, Spare;
    var es := Dir(v, cat, d);
    forall j | 0 <= j < |es| ensures !IsMatch(es[j], name) {
    }
  }

  /** What the matches of a tidy directory's listing say about the directory. */
  lemma MatchCases(es: seq<slot>, ps: seq<(nat, nat)>, ls: seq<Located>, name: seq<byte>, m: seq<nat>)
    requires Listed(es, ps, ls) && Tidy(es) && MatchesOf(ls, name, m)
    ensures |m| == 0 ==> NameFree(es, name)
    ensures |m| == 1 ==>
      m[0] < |es| && Storable(es, m[0], name) && es[m[0]] == ls[m[0]].entry && IsMatch(es[m[0]], name)
    ensures |m| > 1 ==> Ambiguous(es, name)
  {
    ListedTidy(es, ps, ls);
    forall i | 0 <= i < |es| ensures i in m <==> IsMatch(es[i], name) {
      assert ls[i].entry == es[i] || ls[i].entry == Zeros(32);
    }
    if |m| == 1 {
      assert m[0] in m;
    }
    if |m| > 1 {
      assert m[0] in m && m[1] in m;
    }
  }

  // ---- Writing a chain

  /** The `k`th of the equal chunks of a byte string. */
  predicate IsChunk(d: seq<byte>, bytes: seq<byte>, size: nat, k: nat) {
    0 <= k * size <= (k + 1) * size <= |bytes| && d == bytes[k * size..(k + 1) * size]
  }

  lemma {:induction false} ContentFromChunks(data: seq<seq<byte>>, chain: seq<nat>, bytes: seq<byte>, size: nat, n: nat)
    requires Within(data, chain) && n <= |chain|
    requires forall k :: 0 <= k < |chain| ==> IsChunk(data[chain[k]], bytes, size, k)
    ensures 0 <= n * size <= |bytes|
    ensures Content(data, chain[..n]) == bytes[..n * size]
  {
    if n > 0 {
      ContentFromChunks(data, chain, bytes, size, n - 1);
      assert IsChunk(data[chain[n - 1]], bytes, size, n - 1);
      assert chain[..n] == chain[..n - 1] + [chain[n - 1]];
      ContentAppend(data, chain[..n - 1], [chain[n - 1]]);
      assert Content(data, [chain[n - 1]]) == data[chain[n - 1]];
      assert bytes[..n * size] == bytes[..(n - 1) * size] + bytes[(n - 1) * size..n * size];
    }
  }

  // ---- Growing a directory

  /** Directories may have gained end marks; every entry, file and chain is as before. */
  ghost predicate Grown(v: Volume, cat: Catalog, v': Volume, cat': Catalog)
    requires HasChains(v, cat) && HasChains(v', cat')
  {
    && v'.clusterSize == v.clusterSize
    && cat'.dirs == cat.dirs && cat'.chains.Keys == cat.chains.Keys
    && (forall k :: k in cat.chains && k !in cat.dirs ==>
          cat'.chains[k] == cat.chains[k] && Content(v'.data, cat'.chains[k]) == Content(v.data, cat.chains[k]))
    && (forall d :: d in cat.dirs ==>
          Dir(v, cat, d) <= Dir(v', cat', d) && BlankFrom(Dir(v', cat', d), |Dir(v, cat, d)|))
    && SameNodes(v, cat, v', cat')
  }

  ghost predicate BlankFrom(es: seq<slot>, n: nat) {
    forall k :: n <= k < |es| ==> es[k][0] == 0
  }

  lemma GrownNodes(v: Volume, cat: Catalog, v': Volume, cat': Catalog)
    requires HasChains(v, cat) && HasChains(v', cat') && Grown(v, cat, v', cat')
    ensures cat'.dirs == cat.dirs && SameNodes(v, cat, v', cat')
  {
  }

  lemma GrownRefl(v: Volume, cat: Catalog)
    requires HasChains(v, cat)
    ensures Grown(v, cat, v, cat)
  {
  }

  /** A single fresh cluster belongs to no chain. */
  lemma AllocateOne(fat: seq<nat>, fat': seq<nat>, chains: map<nat, seq<nat>>, dir: nat, s: seq<nat>)
    requires 3 <= |fat| <= 0x0FFF_FFEF && ChainsOk(fat, chains) && dir in chains
    requires Enough(fat, [], 1) && s == Selected(fat, [], 1) && Allocated(fat, fat', [], s)
    ensures s == [s[0]] && InRange(fat, s[0])
    ensures ChainsOk(fat', chains[s[0] := [s[0]]]) && s[0] !in chains
    ensures forall k :: k in chains ==> s[0] !in chains[k]
  {
    SelectedSpec(fat, [], 1);
    AllocationKeepsChains(fat, fat', chains, [], s);
    assert s == [s[0]];
    forall k | k in chains ensures s[0] !in chains[k] {
      assert Apart(chains[k], [], s);
    }
  }

  lemma NothingOwned(fat: seq<nat>)
    ensures Owned(fat, [])
  {
  }

  lemma LastInRange(fat: seq<nat>, chains: map<nat, seq<nat>>, d: nat)
    requires ChainsOk(fat, chains) && d in chains
    ensures chains[d] != [] && InRange(fat, chains[d][|chains[d]| - 1])
  {
    assert IsChain(fat, chains[d]);
  }

  /** Linking a fresh one-cluster chain behind a directory's last cluster. */
  lemma JoinChain(fat: seq<nat>, fat': seq<nat>, chains: map<nat, seq<nat>>, dir: nat, ext: nat)
    requires ChainsOk(fat, chains[ext := [ext]]) && ext !in chains && dir in chains
    requires chains[dir] != [] && InRange(fat, chains[dir][|chains[dir]| - 1])
    requires var last := chains[dir][|chains[dir]| - 1];
      ext < ENTRY_SPAN && fat' == fat[last := WithEntry(fat[last], ext)]
    ensures ChainsOk(fat', chains[dir := chains[dir] + [ext]])
  {
    var all := chains[ext := [ext]];
    var chain := chains[dir];
    var n := |chain| - 1;
    assert all[dir] == chain && all[ext] == [ext];
    var s := chain + [ext];
    assert Disjoint(all[dir], all[ext]);
    assert IsChain(fat', s) by {
      forall i | 0 <= i < |s| - 1 ensures LinkAt(fat', s, i) {
        if i < n { assert LinkAt(fat, chain, i); }
      }
      assert Entry(fat, all[ext][0]) >= EOC_MIN;
    }
    forall k | k in chains && k != dir
      ensures IsChain(fat', chains[k]) && chains[k][0] == k && Disjoint(chains[k], s)
    {
      assert all[k] == chains[k];
      assert Disjoint(all[k], all[dir]) && Disjoint(all[k], all[ext]);
      ChainFrame(fat, fat', chains[k]);
    }
    assert forall k, l :: k in chains && l in chains && k != l ==> Disjoint(all[k], all[l]);
    WithChain(fat', chains, s);
  }

  /** Everything a directory extension guarantees. */
  lemma ExtendAll(v: Volume, cat: Catalog, dir: nat, v': Volume, ext: nat)
    requires Inv(v, cat) && dir in cat.dirs
    requires forall i :: 0 <= i < |Dir(v, cat, dir)| ==> !Vacant(Dir(v, cat, dir)[i])
    requires v'.Valid() && v'.clusterSize == v.clusterSize && |v'.data| == |v.data| && 2 <= ext < |v.data|
    requires ChainsOk(v'.fat, cat.chains[dir := cat.chains[dir] + [ext]])
    requires v'.data == v.data[ext := Zeros(v.clusterSize)]
    requires forall k :: k in cat.chains ==> ext !in cat.chains[k]
    ensures var cat' := Catalog(cat.chains[dir := cat.chains[dir] + [ext]], cat.dirs);
      && Inv(v', cat') && Grown(v, cat, v', cat')
      && FirstVacant(Dir(v', cat', dir), |Dir(v, cat, dir)|)
      && Places(v'.data, cat'.chains[dir])[|Dir(v, cat, dir)|] == (ext, 0)
  {
    ExtendDirectory(v, cat, dir, v', ext);
    ExtendGrown(v, cat, dir, v', ext);
    PlaceOfExtension(v.data, v'.data, cat.chains[dir], ext, v.clusterSize);
  }

  lemma ExtendGrown(v: Volume, cat: Catalog, dir: nat, v': Volume, ext: nat)
    requires HasChains(v, cat) && dir in cat.dirs && ext < |v.data| && v'.clusterSize == v.clusterSize
    requires v'.data == v.data[ext := Zeros(v.clusterSize)]
    requires forall k :: k in cat.chains ==> ext !in cat.chains[k]
    requires var cat' := Catalog(cat.chains[dir := cat.chains[dir] + [ext]], cat.dirs);
      HasChains(v', cat') && SameNodes(v, cat, v', cat')
    ensures Grown(v, cat, v', Catalog(cat.chains[dir := cat.chains[dir] + [ext]], cat.dirs))
  {
    ExtendedSlots(v, cat, dir, v', ext);
    forall k | k in cat.chains && k !in cat.dirs
      ensures Content(v'.data, cat.chains[k]) == Content(v.data, cat.chains[k])
    {
      assert forall i :: 0 <= i < |cat.chains[k]| ==> cat.chains[k][i] in cat.chains[k];
      DataFrame(v.data, v'.data, cat.chains[k]);
    }
  }

  lemma PlaceOfExtension(data: seq<seq<byte>>, data': seq<seq<byte>>, chain: seq<nat>, ext: nat, size: nat)
    requires Within(data, chain) && ext < |data| && ext !in chain && size >= 32
    requires data' == data[ext := Zeros(size)]
    ensures Within(data', chain + [ext])
    ensures var n := |Slots(data, chain)|;
      n < |Places(data', chain + [ext])| && Places(data', chain + [ext])[n] == (ext, 0)
  {
    assert forall i :: 0 <= i < |chain| ==> chain[i] in chain;
    DataFrame(data, data', chain);
    PlacesAppend(data', chain, [ext]);
    var own := Places(data', [ext]);
    assert own == seq(size / 32, j => (ext, j)) + [];
    assert own[0] == (ext, 0);
  }

  lemma TakeOne(fat: seq<nat>, owned: seq<nat>, reused: seq<nat>, taken: seq<nat>, c: nat)
    requires c < |fat| && Free(fat, owned, c)
    ensures taken + FreeFrom(fat, owned, c) == taken + [c] + FreeFrom(fat, owned, c + 1)
    ensures reused + taken + [c] == reused + (taken + [c])
  {
  }

  lemma ChunkBounds(i: nat, n: nat, size: nat)
    requires i < n
    ensures 0 <= i * size <= (i + 1) * size <= n * size && (i + 1) * size == i * size + size
  {
    MulLe(0, i, size);
    MulLe(i + 1, n, size);
  }

  // ---- Creating and replacing

  /** No file entry names first cluster `f`. */
  ghost predicate Unreferenced(v: Volume, cat: Catalog, f: nat)
    requires HasChains(v, cat)
  {
    forall d, k :: d in cat.dirs && 0 <= k < |Dir(v, cat, d)| && FileRef(Dir(v, cat, d)[k]) ==>
      FirstCluster(Dir(v, cat, d)[k]) != f
  }

  /** A first cluster that was in no chain is named by no entry, also once its chain exists. */
  lemma FreshUnreferenced(v: Volume, cat: Catalog, v': Volume, cat': Catalog, f: nat)
    requires Inv(v, cat) && f !in cat.chains
    requires HasChains(v', cat') && cat'.dirs == cat.dirs
    requires forall d :: d in cat.dirs ==> Dir(v', cat', d) == Dir(v, cat, d)
    ensures Unreferenced(v', cat', f)
  {
    forall d, k | d in cat.dirs && 0 <= k < |Dir(v, cat, d)| && FileRef(Dir(v, cat, d)[k])
      ensures FirstCluster(Dir(v, cat, d)[k]) != f
    {
      assert DirOk(v.clusterSize, cat, Dir(v, cat, d));
      assert RefOk(v.clusterSize, cat, Dir(v, cat, d)[k]);
    }
  }

  lemma GrownUnreferenced(v: Volume, cat: Catalog, v': Volume, cat': Catalog, f: nat)
    requires HasChains(v, cat) && HasChains(v', cat') && Grown(v, cat, v', cat')
    requires Unreferenced(v, cat, f)
    ensures Unreferenced(v', cat', f)
  {
    forall d, k | d in cat'.dirs && 0 <= k < |Dir(v', cat', d)| && FileRef(Dir(v', cat', d)[k])
      ensures FirstCluster(Dir(v', cat', d)[k]) != f
    {
      assert Dir(v, cat, d) <= Dir(v', cat', d) && BlankFrom(Dir(v', cat', d), |Dir(v, cat, d)|);
      assert Dir(v', cat', d)[k] == Dir(v, cat, d)[k];
    }
  }

  lemma GrownNameFree(v: Volume, cat: Catalog, v': Volume, cat': Catalog, d: nat, name: seq<byte>)
    requires HasChains(v, cat) && HasChains(v', cat') && Grown(v, cat, v', cat') && d in cat.dirs
    requires NameFree(Dir(v, cat, d), name)
    ensures NameFree(Dir(v', cat', d), name)
  {
    var es, es' := Dir(v, cat, d), Dir(v', cat', d);
    assert es <= es' && BlankFrom(es', |es|);
    forall k | 0 <= k < |es'| ensures !(InUse(es'[k]) && Name(es'[k]) == name) {
      if k < |es| { assert es'[k] == es[k]; }
    }
  }

  /** The volume with one directory slot overwritten. */
  function WithSlot(v: Volume, c: nat, j: nat, e: slot): (v': Volume)
    requires c < |v.data| && j < |v.data[c]| / 32
  {
    v.(data := v.data[c := Patch(v.data[c], j, e)])
  }

  /** Every chain of `cat` but `f` is the same chain over the same data. */
  ghost predicate KeptBut(v: Volume, cat: Catalog, v': Volume, cat': Catalog, f: nat)
    requires HasChains(v, cat)
  {
    && |v'.data| == |v.data|
    && forall k :: k in cat.chains && k != f ==>
         && k in cat'.chains && cat'.chains[k] == cat.chains[k]
         && forall i :: 0 <= i < |cat.chains[k]| ==> v'.data[cat.chains[k][i]] == v.data[cat.chains[k][i]]
  }

  lemma KeptData(v: Volume, cat: Catalog, v': Volume, cat': Catalog, f: nat, k: nat)
    requires HasChains(v, cat) && KeptBut(v, cat, v', cat', f) && k in cat.chains && k != f
    ensures Slots(v'.data, cat.chains[k]) == Slots(v.data, cat.chains[k])
    ensures Places(v'.data, cat.chains[k]) == Places(v.data, cat.chains[k])
    ensures Content(v'.data, cat.chains[k]) == Content(v.data, cat.chains[k])
  {
    DataFrame(v.data, v'.data, cat.chains[k]);
  }

  lemma KeptDirs(v: Volume, cat: Catalog, w: Volume, cat': Catalog, f: nat)
    requires HasChains(v, cat) && HasChains(w, cat') && KeptBut(v, cat, w, cat', f)
    requires cat'.dirs == cat.dirs && f !in cat.dirs
    ensures forall d :: d in cat.dirs ==> Dir(w, cat', d) == Dir(v, cat, d)
    ensures SameFiles(v, cat, w, cat', f)
  {
    forall k | k in cat.chains && k != f
      ensures Slots(w.data, cat.chains[k]) == Slots(v.data, cat.chains[k])
      ensures Content(w.data, cat.chains[k]) == Content(v.data, cat.chains[k])
    {
      KeptData(v, cat, w, cat', f, k);
    }
  }

  /** Overwriting one place of a directory changes that one slot and nothing outside the directory. */
  lemma SlotStore(w: Volume, cat: Catalog, dir: nat, i: nat, e: slot)
    requires HasChains(w, cat) && ChainsOk(w.fat, cat.chains) && dir in cat.dirs && i < |Dir(w, cat, dir)|
    ensures var (c, j) := Places(w.data, cat.chains[dir])[i];
      && c in cat.chains[dir] && c < |w.data| && j < |w.data[c]| / 32
      && HasChains(WithSlot(w, c, j, e), cat)
      && Dir(WithSlot(w, c, j, e), cat, dir) == Dir(w, cat, dir)[i := e]
      && (forall d :: d in cat.dirs && d != dir ==> Dir(WithSlot(w, c, j, e), cat, d) == Dir(w, cat, d))
      && (forall k :: k in cat.chains && k != dir ==>
            Content(WithSlot(w, c, j, e).data, cat.chains[k]) == Content(w.data, cat.chains[k]))
  {
    WriteSlot(w.data, cat.chains[dir], i, e);
    var (c, j) := Places(w.data, cat.chains[dir])[i];
    forall k | k in cat.chains && k != dir
      ensures Slots(WithSlot(w, c, j, e).data, cat.chains[k]) == Slots(w.data, cat.chains[k])
      ensures Content(WithSlot(w, c, j, e).data, cat.chains[k]) == Content(w.data, cat.chains[k])
    {
      assert Disjoint(cat.chains[dir], cat.chains[k]);
      DataFrame(w.data, WithSlot(w, c, j, e).data, cat.chains[k]);
    }
  }

  /** Rewriting the chain of `f` and then one slot of `dir` amounts to one store. */
  lemma StoreSteps(v: Volume, cat: Catalog, w: Volume, cat': Catalog, dir: nat, i: nat, e: slot, f: nat)
    requires HasChains(v, cat) && w.Valid() && w.clusterSize == v.clusterSize && HasChains(w, cat')
    requires ChainsOk(w.fat, cat'.chains) && cat'.dirs == cat.dirs && cat'.chains.Keys == cat.chains.Keys + {f}
    requires KeptBut(v, cat, w, cat', f) && f !in cat.dirs
    requires dir in cat.dirs && i < |Dir(v, cat, dir)|
    ensures var (c, j) := Places(v.data, cat.chains[dir])[i];
      && c in cat'.chains[dir] && c < |w.data| && j < |w.data[c]| / 32
      && Stored(v, cat, WithSlot(w, c, j, e), cat', dir, i, e, f)
      && Content(WithSlot(w, c, j, e).data, cat'.chains[f]) == Content(w.data, cat'.chains[f])
  {
    hide ChainsOk, Slots, Places, Content;
    KeptDirs(v, cat, w, cat', f);
    KeptData(v, cat, w, cat', f, dir);
    SlotStore(w, cat', dir, i, e);
  }

  /** Replacing the chain an allocation owns keeps every other chain and its data. */
  lemma AllocationKept(v: Volume, cat: Catalog, w: Volume, owned: seq<nat>, s: seq<nat>)
    requires HasChains(v, cat) && |w.data| == |v.data| && s != []
    requires forall k :: k in cat.chains && k != s[0] ==> Apart(cat.chains[k], owned, s)
    requires forall c :: 0 <= c < |v.data| && c !in owned && c !in s ==> w.data[c] == v.data[c]
    ensures KeptBut(v, cat, w, Catalog(cat.chains[s[0] := s], cat.dirs), s[0])
  {
    forall k, i | k in cat.chains && k != s[0] && 0 <= i < |cat.chains[k]|
      ensures w.data[cat.chains[k][i]] == v.data[cat.chains[k][i]]
    {
      assert Apart(cat.chains[k], owned, s);
    }
  }

  /** The state after a chain has been allocated over `owned` and filled with bytes. */
  ghost predicate Filled(v: Volume, w: Volume, owned: seq<nat>, s: seq<nat>, bytes: seq<byte>) {
    && w.clusterSize == v.clusterSize && |w.data| == |v.data|
    && s != [] && GoodChoice(v.fat, owned, s) && Allocated(v.fat, w.fat, owned, s)
    && Within(w.data, s) && bytes <= Content(w.data, s) && |bytes| <= |s| * v.clusterSize
    && (forall c :: 0 <= c < |v.data| && c !in owned && c !in s ==> w.data[c] == v.data[c])
  }

  /** Allocating and then writing fills. */
  lemma FillResult(v: Volume, w: Volume, x: Volume, owned: seq<nat>, s: seq<nat>, bytes: seq<byte>)
    requires v.clusterSize > 0 && Owned(v.fat, owned) && Enough(v.fat, owned, ClusterCount(|bytes|, v.clusterSize))
    requires s == Selected(v.fat, owned, ClusterCount(|bytes|, v.clusterSize))
    requires Allocated(v.fat, w.fat, owned, s)
    requires Wiped(v.data, w.data, Surplus(owned, |s|), v.clusterSize)
    requires x.clusterSize == v.clusterSize && x.fat == w.fat && |x.data| == |w.data| && Within(x.data, s)
    requires bytes <= Content(x.data, s)
    requires forall c :: 0 <= c < |w.data| && c !in s ==> x.data[c] == w.data[c]
    ensures Filled(v, x, owned, s, bytes)
    ensures |FreeSet(x.fat)| == |FreeSet(v.fat)| + |owned| - |s|
  {
    SelectedSpec(v.fat, owned, |s|);
    FreeConservation(v.fat, w.fat, owned, |s|);
    assert forall c :: c in Surplus(owned, |s|) ==> c in owned;
  }

  /** A filled fresh chain joins the catalogue. */
  lemma AddFile(v: Volume, cat: Catalog, w: Volume, s: seq<nat>, bytes: seq<byte>)
    requires Inv(v, cat) && w.Valid() && Filled(v, w, [], s, bytes)
    ensures s[0] !in cat.chains && 2 <= s[0] < ENTRY_SPAN
    ensures var cat' := Catalog(cat.chains[s[0] := s], cat.dirs);
      && HasChains(w, cat') && Inv(w, cat') && SameNodes(v, cat, w, cat')
      && (forall d :: d in cat.dirs ==> Dir(w, cat', d) == Dir(v, cat, d))
  {
    AllocationKeepsChains(v.fat, w.fat, cat.chains, [], s);
    assert InRange(v.fat, s[0]);
    forall k, c | k in cat.chains && c in cat.chains[k] ensures w.data[c] == v.data[c] {
      assert Apart(cat.chains[k], [], s);
    }
    AddChain(v, cat, w, s);
  }

  lemma UnreferencedOnly(v: Volume, cat: Catalog, f: nat, dir: nat, i: nat)
    requires HasChains(v, cat) && Unreferenced(v, cat, f)
    ensures OnlyRef(v, cat, f, dir, i)
  {
  }

  /** Writing the entry of a fresh file into the first vacant slot. */
  lemma StoreNew(v1: Volume, cat1: Catalog, v: Volume, cat: Catalog,
                 dir: nat, i: nat, e: slot, f: nat, name: seq<byte>, bytes: seq<byte>)
    requires Inv(v, cat) && HasChains(v1, cat1) && HasChains(v, cat) && Grown(v1, cat1, v, cat)
    requires dir in cat1.dirs && NameFree(Dir(v1, cat1, dir), name) && Unreferenced(v1, cat1, f)
    requires f in cat1.chains && f !in cat1.dirs
    requires bytes <= Content(v1.data, cat1.chains[f]) && |bytes| <= |cat1.chains[f]| * v1.clusterSize
    requires FirstVacant(Dir(v, cat, dir), i) && PlainName(name) && FileEntry(e, name, f, |bytes|)
    ensures var (c, j) := Places(v.data, cat.chains[dir])[i];
      && 2 <= c < |v.data| && j < v.clusterSize / 32 && |v.data[c]| == v.clusterSize
      && var v' := WithSlot(v, c, j, e);
      && v'.Valid() && HasChains(v', cat) && Inv(v', cat)
      && forall d, n :: d in cat.dirs && PlainName(n) ==>
           Lookup(v', cat, d, n) == if d == dir && n == name then Some(File(bytes)) else Lookup(v1, cat1, d, n)
  {
    hide Inv, OnlyRef, Stored, Lookup, NameFree, Slots, Places, Content, ChainsOk, FileEntry, Storable, Patch;
    InvShape(v, cat);
    GrownUnreferenced(v1, cat1, v, cat, f);
    GrownNameFree(v1, cat1, v, cat, dir, name);
    UnreferencedOnly(v, cat, f, dir, i);
    StoreSteps(v, cat, v, cat, dir, i, e, f);
    var (c, j) := Places(v.data, cat.chains[dir])[i];
    StoredInv(v, cat, WithSlot(v, c, j, e), cat, dir, i, e, f, name, |bytes|);
    StoredNodes(v, cat, WithSlot(v, c, j, e), cat, dir, i, e, f, name, bytes);
  }

  lemma SoleReference(v: Volume, cat: Catalog, dir: nat, i: nat)
    requires HasChains(v, cat) && NoAlias(v, cat) && dir in cat.dirs && i < |Dir(v, cat, dir)|
    requires FileRef(Dir(v, cat, dir)[i])
    ensures OnlyRef(v, cat, FirstCluster(Dir(v, cat, dir)[i]), dir, i)
  {
  }

  /** Where the chain of an existing file entry is. */
  lemma EntryChain(v: Volume, cat: Catalog, dir: nat, i: nat)
    requires Inv(v, cat) && dir in cat.dirs && i < |Dir(v, cat, dir)| && FileRef(Dir(v, cat, dir)[i])
    ensures var f := FirstCluster(Dir(v, cat, dir)[i]);
      && f in cat.chains && f !in cat.dirs && OnlyRef(v, cat, f, dir, i)
      && IsChain(v.fat, cat.chains[f]) && cat.chains[f][0] == f
  {
    assert DirOk(v.clusterSize, cat, Dir(v, cat, dir));
    assert RefOk(v.clusterSize, cat, Dir(v, cat, dir)[i]);
    SoleReference(v, cat, dir, i);
  }

  lemma SameChain(v: Volume, cat: Catalog, f: nat, s: seq<nat>)
    requires v.Valid() && IsChain(v.fat, s) && s[0] == f
    requires f != 0 ==> f in cat.chains && IsChain(v.fat, cat.chains[f]) && cat.chains[f][0] == f
    ensures f != 0 && s == cat.chains[f] && Owned(v.fat, s) && s != []
  {
    assert InRange(v.fat, s[0]);
    ChainUnique(v.fat, s, cat.chains[f]);
    ChainIsOwned(v.fat, s);
  }

  lemma FilledHead(v: Volume, w: Volume, owned: seq<nat>, s: seq<nat>, bytes: seq<byte>)
    requires v.Valid() && owned != [] && Filled(v, w, owned, s, bytes)
    ensures s != [] && s[0] == owned[0] && 2 <= s[0] < ENTRY_SPAN
  {
    assert InRange(v.fat, s[0]);
  }

  /** Refilling the chain of an existing file and rewriting its entry. */
  lemma StoreReplacement(v: Volume, cat: Catalog, w: Volume, s: seq<nat>,
                         dir: nat, i: nat, e: slot, f: nat, name: seq<byte>, bytes: seq<byte>)
    requires Inv(v, cat) && HasChains(v, cat) && w.Valid()
    requires f in cat.chains && f !in cat.dirs && Filled(v, w, cat.chains[f], s, bytes)
    requires dir in cat.dirs && i < |Dir(v, cat, dir)| && OnlyRef(v, cat, f, dir, i)
    requires Storable(Dir(v, cat, dir), i, name) && PlainName(name) && FileEntry(e, name, f, |bytes|)
    ensures s[0] == f
    ensures var (c, j) := Places(v.data, cat.chains[dir])[i];
      && 2 <= c < |w.data| && j < w.clusterSize / 32 && |w.data[c]| == w.clusterSize
      && var v', cat' := WithSlot(w, c, j, e), Catalog(cat.chains[f := s], cat.dirs);
      && v'.Valid() && HasChains(v', cat') && Inv(v', cat')
      && forall d, n :: d in cat.dirs && PlainName(n) ==>
           Lookup(v', cat', d, n) == if d == dir && n == name then Some(File(bytes)) else Lookup(v, cat, d, n)
  {
    hide Inv;
    InvShape(v, cat);
    var owned := cat.chains[f];
    var cat' := Catalog(cat.chains[f := s], cat.dirs);
    AllocationKeepsChains(v.fat, w.fat, cat.chains, owned, s);
    AllocationKept(v, cat, w, owned, s);
    StoreSteps(v, cat, w, cat', dir, i, e, f);
    var (c, j) := Places(v.data, cat.chains[dir])[i];
    StoredInv(v, cat, WithSlot(w, c, j, e), cat', dir, i, e, f, name, |bytes|);
    StoredNodes(v, cat, WithSlot(w, c, j, e), cat', dir, i, e, f, name, bytes);
  }

  /** The map shows a directory at (d, name). */
  predicate ShowsDirectory(v: Volume, cat: Catalog, d: nat, name: seq<byte>)
    requires HasChains(v, cat) && d in cat.dirs
  {
    Lookup(v, cat, d, name).Some? && Lookup(v, cat, d, name).value.Directory?
  }

  lemma NoDirectoryNamed(v: Volume, cat: Catalog, d: nat, name: seq<byte>)
    requires HasChains(v, cat) && d in cat.dirs && NameFree(Dir(v, cat, d), name)
    ensures !ShowsDirectory(v, cat, d, name)
  {
  }

  lemma OnlyFileNamed(v: Volume, cat: Catalog, d: nat, name: seq<byte>, i: nat)
    requires HasChains(v, cat) && d in cat.dirs && Storable(Dir(v, cat, d), i, name) && !IsDirectory(Dir(v, cat, d)[i])
    ensures !ShowsDirectory(v, cat, d, name)
  {
    var es := Dir(v, cat, d);
    if Find(es, name).Some? {
      var k :| 0 <= k < |es| && es[k] == Find(es, name).value;
    }
  }

  // ---- Creating a directory

  /** Two dot entries followed by end marks. */
  ghost predicate FreshDirectory(es: seq<slot>) {
    && |es| >= 2 && IsDot(es[0]) && IsDot(es[1])
    && forall k :: 2 <= k < |es| ==> es[k][0] == 0
  }

  lemma FreshDirectoryEmpty(es: seq<slot>, clusterSize: nat, cat: Catalog, n: seq<byte>)
    requires FreshDirectory(es) && PlainName(n)
    ensures DirOk(clusterSize, cat, es) && Find(es, n) == None
  {
    forall k | 0 <= k < |es| ensures !(Visible(es[k]) && Name(es[k]) == n) {
      assert Name(es[k])[0] == es[k][0];
    }
    FindNone(es, n);
  }

  predicate DirectoryEntry(e: slot, name: seq<byte>, c: nat) {
    Name(e) == name && Visible(e) && !IsDot(e) && IsDirectory(e) && FirstCluster(e) == c
  }

  /** References stay good when a chain no file entry names becomes a directory. */
  lemma RefsPromote(clusterSize: nat, cat: Catalog, c: nat, es: seq<slot>)
    requires DirOk(clusterSize, cat, es)
    requires forall k :: 0 <= k < |es| && FileRef(es[k]) ==> FirstCluster(es[k]) != c
    ensures DirOk(clusterSize, Catalog(cat.chains, cat.dirs + {c}), es)
  {
    forall k | 0 <= k < |es| ensures RefOk(clusterSize, Catalog(cat.chains, cat.dirs + {c}), es[k]) {
      assert RefOk(clusterSize, cat, es[k]);
    }
  }

  /** The directories of `v'` are those of `v`, with slot `i` of `dir` rewritten and `c` added. */
  ghost predicate DirAdded(v: Volume, cat: Catalog, v': Volume, cat': Catalog, dir: nat, i: nat, e: slot, c: nat)
    requires HasChains(v, cat)
  {
    && HasChains(v', cat') && cat' == Catalog(cat.chains, cat.dirs + {c})
    && c in cat.chains && c !in cat.dirs && dir in cat.dirs && i < |Dir(v, cat, dir)|
    && Dir(v', cat', dir) == Dir(v, cat, dir)[i := e]
    && (forall d :: d in cat.dirs && d != dir ==> Dir(v', cat', d) == Dir(v, cat, d))
    && FreshDirectory(Dir(v', cat', c))
    && SameFiles(v, cat, v', cat', c)
  }

  lemma DirAddedOk(v: Volume, cat: Catalog, v': Volume, cat': Catalog,
                   dir: nat, i: nat, e: slot, c: nat, name: seq<byte>, d: nat)
    requires HasChains(v, cat) && DirAdded(v, cat, v', cat', dir, i, e, c)
    requires d in cat.dirs ==> DirOk(v.clusterSize, cat, Dir(v, cat, d))
    requires Unreferenced(v, cat, c) && Storable(Dir(v, cat, dir), i, name) && DirectoryEntry(e, name, c)
    requires PlainName(name) && d in cat'.dirs
    ensures DirOk(v.clusterSize, cat', Dir(v', cat', d))
  {
    if d == c {
      FreshDirectoryEmpty(Dir(v', cat', c), v.clusterSize, cat', name);
    } else {
      RefsPromote(v.clusterSize, cat, c, Dir(v, cat, d));
      if d == dir {
        FindStored(Dir(v, cat, dir), i, name, e, name);
      }
    }
  }

  lemma DirAddedNoAlias(v: Volume, cat: Catalog, v': Volume, cat': Catalog, dir: nat, i: nat, e: slot, c: nat)
    requires HasChains(v, cat) && DirAdded(v, cat, v', cat', dir, i, e, c)
    requires NoAlias(v, cat) && IsDirectory(e)
    ensures NoAlias(v', cat')
  {
    forall d, k | d in cat'.dirs && 0 <= k < |Dir(v', cat', d)| && FileRef(Dir(v', cat', d)[k])
      ensures d in cat.dirs && k < |Dir(v, cat, d)| && Dir(v', cat', d)[k] == Dir(v, cat, d)[k]
    {
      assert FreshDirectory(Dir(v', cat', c));
    }
  }

  lemma DirAddedLookup(v: Volume, cat: Catalog, v': Volume, cat': Catalog,
                       dir: nat, i: nat, e: slot, c: nat, name: seq<byte>, d: nat, n: seq<byte>)
    requires HasChains(v, cat) && DirAdded(v, cat, v', cat', dir, i, e, c)
    requires d in cat.dirs ==> DirOk(v.clusterSize, cat, Dir(v, cat, d))
    requires Unreferenced(v, cat, c) && Storable(Dir(v, cat, dir), i, name) && DirectoryEntry(e, name, c)
    requires PlainName(name) && d in cat'.dirs && PlainName(n)
    ensures Lookup(v', cat', d, n) ==
      if d == c then None else if d == dir && n == name then Some(Directory(c)) else Lookup(v, cat, d, n)
  {
    if d == c {
      FreshDirectoryEmpty(Dir(v', cat', c), v.clusterSize, cat', n);
    } else {
      if d == dir {
        FindStored(Dir(v, cat, dir), i, name, e, n);
      }
      if !(d == dir && n == name) {
        UnreferencedAvoids(v, cat, c, d, n);
        LookupSame(v, cat, v', cat', c, d, n);
      }
    }
  }

  lemma UnreferencedAvoids(v: Volume, cat: Catalog, f: nat, d: nat, n: seq<byte>)
    requires HasChains(v, cat) && d in cat.dirs && Unreferenced(v, cat, f)
    ensures FoundAvoids(v, cat, f, d, n)
  {
    var es := Dir(v, cat, d);
    if Find(es, n).Some? {
      var k :| 0 <= k < |es| && es[k] == Find(es, n).value;
    }
  }

  /** Writing the entry of a fresh directory into the first vacant slot of its parent. */
  lemma StoreDirectory(v1: Volume, cat1: Catalog, v: Volume, cat: Catalog, dir: nat, i: nat, e: slot, c: nat,
      name: seq<byte>)
    requires Inv(v, cat) && HasChains(v1, cat1) && HasChains(v, cat) && Grown(v1, cat1, v, cat)
    requires dir in cat1.dirs && NameFree(Dir(v1, cat1, dir), name) && Unreferenced(v1, cat1, c)
    requires c in cat.chains && c !in cat.dirs && FreshDirectory(Slots(v.data, cat.chains[c]))
    requires FirstVacant(Dir(v, cat, dir), i) && PlainName(name) && DirectoryEntry(e, name, c)
    ensures var (b, j) := Places(v.data, cat.chains[dir])[i];
      && 2 <= b < |v.data| && j < v.clusterSize / 32 && |v.data[b]| == v.clusterSize
      && var v', cat' := WithSlot(v, b, j, e), Catalog(cat.chains, cat.dirs + {c});
      && v'.Valid() && HasChains(v', cat') && Inv(v', cat')
      && forall d, n :: d in cat'.dirs && PlainName(n) ==>
           Lookup(v', cat', d, n) ==
             if d == c then None else if d == dir && n == name then Some(Directory(c)) else Lookup(v1, cat1, d, n)
    ensures var (b, j) := Places(v.data, cat.chains[dir])[i];
      Slots(WithSlot(v, b, j, e).data, cat.chains[c]) == Slots(v.data, cat.chains[c])
  {
    hide Inv, Grown, Unreferenced, DirAdded, FreshDirectory;
    hide ChainsOk;
    InvShape(v, cat);
    GrownNodes(v1, cat1, v, cat);
    GrownUnreferenced(v1, cat1, v, cat, c);
    GrownNameFree(v1, cat1, v, cat, dir, name);
    DirAddedBySlot(v, cat, dir, i, e, c);
    var (b, j) := Places(v.data, cat.chains[dir])[i];
    DirAddedAll(v, cat, WithSlot(v, b, j, e), Catalog(cat.chains, cat.dirs + {c}), dir, i, e, c, name);
  }

  lemma DirAddedBySlot(v: Volume, cat: Catalog, dir: nat, i: nat, e: slot, c: nat)
    requires v.Valid() && ChainsOk(v.fat, cat.chains) && HasChains(v, cat)
    requires dir in cat.dirs && i < |Dir(v, cat, dir)|
    requires c in cat.chains && c !in cat.dirs && FreshDirectory(Slots(v.data, cat.chains[c]))
    ensures var (b, j) := Places(v.data, cat.chains[dir])[i];
      && 2 <= b < |v.data| && j < v.clusterSize / 32 && |v.data[b]| == v.clusterSize
      && WithSlot(v, b, j, e).Valid()
      && DirAdded(v, cat, WithSlot(v, b, j, e), Catalog(cat.chains, cat.dirs + {c}), dir, i, e, c)
      && Within(WithSlot(v, b, j, e).data, cat.chains[c])
      && Slots(WithSlot(v, b, j, e).data, cat.chains[c]) == Slots(v.data, cat.chains[c])
  {
    SlotStore(v, cat, dir, i, e);
    var (b, j) := Places(v.data, cat.chains[dir])[i];
    SlotKeepsSlots(v, cat.chains, dir, b, j, e, c);
    assert b in cat.chains[dir] && IsChain(v.fat, cat.chains[dir]);
  }

  lemma SlotKeepsSlots(v: Volume, chains: map<nat, seq<nat>>, dir: nat, b: nat, j: nat, e: slot, k: nat)
    requires ChainsOk(v.fat, chains) && dir in chains && k in chains && k != dir
    requires Within(v.data, chains[k]) && b in chains[dir] && b < |v.data| && j < |v.data[b]| / 32
    ensures Slots(WithSlot(v, b, j, e).data, chains[k]) == Slots(v.data, chains[k])
  {
    assert Disjoint(chains[dir], chains[k]);
    DataFrame(v.data, WithSlot(v, b, j, e).data, chains[k]);
  }

  lemma DirAddedAll(v: Volume, cat: Catalog, v': Volume, cat': Catalog, dir: nat, i: nat, e: slot, c: nat,
      name: seq<byte>)
    requires Inv(v, cat) && DirAdded(v, cat, v', cat', dir, i, e, c)
    requires v'.Valid() && v'.clusterSize == v.clusterSize && v'.fat == v.fat
    requires Unreferenced(v, cat, c) && Storable(Dir(v, cat, dir), i, name) && DirectoryEntry(e, name, c)
    requires PlainName(name)
    ensures Inv(v', cat')
    ensures forall d, n :: d in cat'.dirs && PlainName(n) ==>
      Lookup(v', cat', d, n) ==
        if d == c then None else if d == dir && n == name then Some(Directory(c)) else Lookup(v, cat, d, n)
  {
    forall d | d in cat'.dirs ensures DirOk(v.clusterSize, cat', Dir(v', cat', d)) {
      DirAddedOk(v, cat, v', cat', dir, i, e, c, name, d);
    }
    DirAddedNoAlias(v, cat, v', cat', dir, i, e, c);
    forall d, n | d in cat'.dirs && PlainName(n)
      ensures Lookup(v', cat', d, n) ==
        if d == c then None else if d == dir && n == name then Some(Directory(c)) else Lookup(v, cat, d, n)
    {
      DirAddedLookup(v, cat, v', cat', dir, i, e, c, name, d, n);
    }
  }

  /** The first cluster of a new directory: two dot entries, then zeros. */
  lemma FreshCluster(dot: slot, dotDot: slot, size: nat)
    requires IsDot(dot) && IsDot(dotDot) && size >= 64 && size % 32 == 0
    ensures var es := ClusterSlots(dot + dotDot + Zeros(size - 64));
      FreshDirectory(es) && es[0] == dot && es[1] == dotDot
  {
    var d := dot + dotDot + Zeros(size - 64);
    var es := ClusterSlots(d);
    assert es[0] == d[0..32] == dot && es[1] == d[32..64] == dotDot;
    forall k | 2 <= k < |es| ensures es[k][0] == 0 {
      assert es[k] == d[32 * k..32 * k + 32];
    }
  }

  lemma SingletonCluster(data: seq<seq<byte>>, c: nat)
    requires c < |data|
    ensures Within(data, [c]) && Content(data, [c]) == data[c] && Slots(data, [c]) == ClusterSlots(data[c])
  {
    assert [c][1..] == [];
  }

  /** A grown volume still has the bytes of a one-cluster chain. */
  lemma GrownSingleton(v: Volume, cat: Catalog, v': Volume, cat': Catalog, c: nat)
    requires HasChains(v, cat) && HasChains(v', cat') && Grown(v, cat, v', cat')
    requires c in cat.chains && c !in cat.dirs && cat.chains[c] == [c]
    ensures c in cat'.chains && c !in cat'.dirs && cat'.chains[c] == [c]
    ensures Slots(v'.data, cat'.chains[c]) == Slots(v.data, cat.chains[c])
  {
    assert cat'.chains[c] == [c] && Within(v'.data, cat'.chains[c]) && Within(v.data, cat.chains[c]);
    assert [c][0] < |v.data| && [c][0] < |v'.data|;
    SingletonCluster(v.data, c);
    SingletonCluster(v'.data, c);
  }

  /** Allocating a single cluster and filling it whole. */
  lemma FillOne(v: Volume, w: Volume, x: Volume, s: seq<nat>)
    requires v.Valid() && Enough(v.fat, [], 1) && s == Selected(v.fat, [], 1) && Allocated(v.fat, w.fat, [], s)
    requires Wiped(v.data, w.data, Surplus([], 1), v.clusterSize)
    requires x.Valid() && x.clusterSize == v.clusterSize && x.fat == w.fat
    requires |x.data| == |w.data| && forall c :: 0 <= c < |w.data| && c != s[0] ==> x.data[c] == w.data[c]
    ensures s == [s[0]] && InRange(v.fat, s[0]) && Filled(v, x, [], s, x.data[s[0]])
  {
    SelectedSpec(v.fat, [], 1);
    assert s == [s[0]];
    assert InRange(v.fat, s[0]);
    SingletonCluster(x.data, s[0]);
    assert 1 * v.clusterSize == v.clusterSize;
  }

  /** Exactly one entry has the name, and it is a directory at `c`. */
  ghost predicate OnlyDirectory(es: seq<slot>, name: seq<byte>, c: nat) {
    exists i :: 0 <= i < |es| && Storable(es, i, name) && IsMatch(es[i], name) && IsDirectory(es[i])
      && FirstCluster(es[i]) == c
  }

  lemma NameTaken(es: seq<slot>, name: seq<byte>, i: nat)
    requires i < |es| && IsMatch(es[i], name)
    ensures !NameFree(es, name)
  {
  }

  lemma SoleDirectory(es: seq<slot>, name: seq<byte>, i: nat)
    requires i < |es| && Storable(es, i, name) && IsMatch(es[i], name) && IsDirectory(es[i])
    ensures OnlyDirectory(es, name, FirstCluster(es[i]))
  {
  }

  lemma EntryDirectory(v: Volume, cat: Catalog, dir: nat, i: nat, name: seq<byte>)
    requires Inv(v, cat) && dir in cat.dirs && i < |Dir(v, cat, dir)| && PlainName(name)
    requires IsMatch(Dir(v, cat, dir)[i], name) && IsDirectory(Dir(v, cat, dir)[i])
    ensures FirstCluster(Dir(v, cat, dir)[i]) in cat.dirs
  {
    var e := Dir(v, cat, dir)[i];
    assert DirOk(v.clusterSize, cat, Dir(v, cat, dir));
    assert RefOk(v.clusterSize, cat, Dir(v, cat, dir)[i]);
    assert Name(e)[0] == e[0];
  }
}
