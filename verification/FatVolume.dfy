/**
 The FAT32 volume as a value: the table, the data clusters, the chains the table
 links, the slots of a directory, and the catalogue invariant that keeps every
 file and directory apart from every other.
 */
module FatVolume {
  import opened Bytes

  const EOC_MIN: nat := 0x0FFF_FFF8
  const BAD_CLUSTER: nat := 0x0FFF_FFF7
  const END_OF_CHAIN: nat := 0x0FFF_FFFF
  const ENTRY_SPAN: nat := 0x1000_0000

  /** Cluster numbers index both sequences; 0 and 1 are reserved. */
  datatype Volume = Volume(clusterSize: nat, fat: seq<nat>, data: seq<seq<byte>>) {
    ghost predicate Valid() {
      && 64 <= clusterSize && clusterSize % 32 == 0
      && 3 <= |fat| <= 0x0FFF_FFEF
      && |data| == |fat| && data[0] == [] && data[1] == []
      && forall c :: 2 <= c < |data| ==> |data[c]| == clusterSize
    }
  }

  // ---- Table entries and chains

  /** The 28 significant bits of a raw table entry. */
  function Entry(fat: seq<nat>, c: nat): (e: nat)
    requires c < |fat|
    ensures e < ENTRY_SPAN
  {
    fat[c] % ENTRY_SPAN
  }

  /** A raw entry whose low 28 bits are replaced and whose top four bits are kept. */
  function WithEntry(raw: nat, value: nat): (r: nat)
    requires value < ENTRY_SPAN
    ensures r % ENTRY_SPAN == value && r / ENTRY_SPAN == raw / ENTRY_SPAN
  {
    raw / ENTRY_SPAN * ENTRY_SPAN + value
  }

  predicate InRange(fat: seq<nat>, c: nat) {
    2 <= c < |fat|
  }

  /** The entry of cluster `i` of a walk names the next one. */
  predicate LinkAt(fat: seq<nat>, s: seq<nat>, i: nat)
    requires i + 1 < |s|
  {
    s[i] < |fat| && Entry(fat, s[i]) == s[i + 1]
  }

  predicate Linked(fat: seq<nat>, s: seq<nat>) {
    && (forall i :: 0 <= i < |s| ==> InRange(fat, s[i]))
    && (forall i :: 0 <= i < |s| - 1 ==> LinkAt(fat, s, i))
  }

  /** A complete cluster chain: linked, without repetition, closed by an end mark. */
  predicate IsChain(fat: seq<nat>, s: seq<nat>) {
    && s != []
    && Linked(fat, s)
    && Distinct(s)
    && Entry(fat, s[|s| - 1]) >= EOC_MIN
  }

  lemma ChainFits(fat: seq<nat>, s: seq<nat>)
    requires IsChain(fat, s)
    ensures |s| <= |fat| - 2
  {
    assert InRange(fat, s[0]);
    Pigeonhole(s, 2, |fat|);
  }

  /** Every linked walk from the head of a chain is a prefix of that chain. */
  lemma {:induction false} WalkIsPrefix(fat: seq<nat>, w: seq<nat>, s: seq<nat>)
    requires |fat| <= EOC_MIN
    requires w != [] && Linked(fat, w)
    requires IsChain(fat, s) && s[0] == w[0]
    ensures w <= s
  {
    if |w| > 1 {
      var n := |w| - 1;
      assert Linked(fat, w[..n]) by {
        forall i | 0 <= i < n - 1 ensures LinkAt(fat, w[..n], i) {
          assert LinkAt(fat, w, i);
        }
      }
      WalkIsPrefix(fat, w[..n], s);
      assert w[..n][n - 1] == w[n - 1] == s[n - 1];
      assert LinkAt(fat, w, n - 1);
      if |s| == n {
        assert false;
      }
      assert LinkAt(fat, s, n - 1);
      assert w == w[..n] + [w[n]];
    }
  }

  lemma ChainUnique(fat: seq<nat>, a: seq<nat>, b: seq<nat>)
    requires |fat| <= EOC_MIN
    requires IsChain(fat, a) && IsChain(fat, b) && a[0] == b[0]
    ensures a == b
  {
    WalkIsPrefix(fat, a, b);
    WalkIsPrefix(fat, b, a);
  }

  /** A chain only depends on the entries of its own clusters. */
  lemma ChainFrame(fat: seq<nat>, fat': seq<nat>, s: seq<nat>)
    requires IsChain(fat, s) && |fat'| == |fat|
    requires forall i :: 0 <= i < |s| ==> Entry(fat', s[i]) == Entry(fat, s[i])
    ensures IsChain(fat', s)
  {
    forall i | 0 <= i < |s| - 1 ensures LinkAt(fat', s, i) {
      assert LinkAt(fat, s, i);
    }
  }

  ghost predicate ChainsOk(fat: seq<nat>, chains: map<nat, seq<nat>>) {
    && (forall k :: k in chains ==> IsChain(fat, chains[k]) && chains[k][0] == k)
    && (forall k, l :: k in chains && l in chains && k != l ==> Disjoint(chains[k], chains[l]))
  }

  // ---- Directory slots

  type slot = e: seq<byte> | |e| == 32 witness seq(32, _ => 0)

  function Name(e: slot): (n: seq<byte>) { e[..11] }

  function Attributes(e: slot): byte { e[11] }

  function FirstCluster(e: slot): (c: nat)
    ensures c < 0x1_0000_0000
  {
    Widths();
    Le(e[20..22]) * 0x1_0000 + Le(e[26..28])
  }

  function FileSize(e: slot): (n: nat)
    ensures n <= U32_MAX
  {
    Widths();
    Le(e[28..32])
  }

  predicate IsDirectory(e: slot) { Attributes(e) / 16 % 2 == 1 }

  predicate IsVolumeId(e: slot) { Attributes(e) / 8 % 2 == 1 }

  /** Neither free nor a long-name fragment. */
  predicate InUse(e: slot) {
    e[0] != 0 && e[0] != 0xE5 && Attributes(e) != 0x0F
  }

  /** What the boot-time reader looks at: in use and not a volume label. */
  predicate Visible(e: slot) {
    InUse(e) && !IsVolumeId(e)
  }

  predicate IsDot(e: slot) { e[0] == 0x2E }

  predicate Vacant(e: slot) { e[0] == 0 || e[0] == 0xE5 }

  function ClusterSlots(d: seq<byte>): (es: seq<slot>)
    ensures |es| == |d| / 32
    ensures forall j :: 0 <= j < |es| ==> es[j] == d[32 * j..32 * j + 32]
  {
    seq(|d| / 32, j requires 0 <= j < |d| / 32 => d[32 * j..32 * j + 32])
  }

  predicate Within(data: seq<seq<byte>>, chain: seq<nat>) {
    forall i :: 0 <= i < |chain| ==> chain[i] < |data|
  }

  function Slots(data: seq<seq<byte>>, chain: seq<nat>): (es: seq<slot>)
    requires Within(data, chain)
  {
    if chain == [] then [] else ClusterSlots(data[chain[0]]) + Slots(data, chain[1..])
  }

  /** Where each slot of a directory lives: the cluster and the index inside it. */
  function Places(data: seq<seq<byte>>, chain: seq<nat>): (ps: seq<(nat, nat)>)
    requires Within(data, chain)
    ensures |ps| == |Slots(data, chain)|
  {
    if chain == [] then []
    else seq(|data[chain[0]]| / 32, j => (chain[0], j)) + Places(data, chain[1..])
  }

  /** The bytes of a chain, cluster after cluster. */
  function Content(data: seq<seq<byte>>, chain: seq<nat>): (bs: seq<byte>)
    requires Within(data, chain)
  {
    if chain == [] then [] else data[chain[0]] + Content(data, chain[1..])
  }

  lemma {:induction false} ContentLength(data: seq<seq<byte>>, chain: seq<nat>, size: nat)
    requires Within(data, chain)
    requires forall i :: 0 <= i < |chain| ==> |data[chain[i]]| == size
    ensures |Content(data, chain)| == |chain| * size
  {
    if chain != [] {
      ContentLength(data, chain[1..], size);
    }
  }

  lemma {:induction false} SlotsAppend(data: seq<seq<byte>>, a: seq<nat>, b: seq<nat>)
    requires Within(data, a) && Within(data, b)
    ensures Within(data, a + b)
    ensures Slots(data, a + b) == Slots(data, a) + Slots(data, b)
  {
    if a == [] {
      assert a + b == b;
    } else {
      SlotsAppend(data, a[1..], b);
      assert (a + b)[1..] == a[1..] + b;
    }
  }

  lemma {:induction false} PlacesAppend(data: seq<seq<byte>>, a: seq<nat>, b: seq<nat>)
    requires Within(data, a) && Within(data, b)
    ensures Within(data, a + b)
    ensures Places(data, a + b) == Places(data, a) + Places(data, b)
  {
    if a == [] {
      assert a + b == b;
    } else {
      PlacesAppend(data, a[1..], b);
      assert (a + b)[1..] == a[1..] + b;
    }
  }

  lemma {:induction false} ContentAppend(data: seq<seq<byte>>, a: seq<nat>, b: seq<nat>)
    requires Within(data, a) && Within(data, b)
    ensures Within(data, a + b)
    ensures Content(data, a + b) == Content(data, a) + Content(data, b)
  {
    if a == [] {
      assert a + b == b;
    } else {
      ContentAppend(data, a[1..], b);
      assert (a + b)[1..] == a[1..] + b;
    }
  }

  /** Slots and content only depend on the data of the chain's own clusters. */
  lemma {:induction false} DataFrame(data: seq<seq<byte>>, data': seq<seq<byte>>, chain: seq<nat>)
    requires Within(data, chain) && |data'| == |data|
    requires forall i :: 0 <= i < |chain| ==> data'[chain[i]] == data[chain[i]]
    ensures Slots(data', chain) == Slots(data, chain)
    ensures Places(data', chain) == Places(data, chain)
    ensures Content(data', chain) == Content(data, chain)
  {
    if chain != [] {
      DataFrame(data, data', chain[1..]);
    }
  }

  /** One cluster with slot `j` overwritten. */
  function Patch(d: seq<byte>, j: nat, e: slot): (d': seq<byte>)
    requires j < |d| / 32
    ensures |d'| == |d|
  {
    d[..32 * j] + e + d[32 * j + 32..]
  }

  lemma PatchSlots(d: seq<byte>, j: nat, e: slot)
    requires j < |d| / 32
    ensures ClusterSlots(Patch(d, j, e)) == ClusterSlots(d)[j := e]
  {
    forall i | 0 <= i < |d| / 32
      ensures Patch(d, j, e)[32 * i..32 * i + 32] == (if i == j then e else d[32 * i..32 * i + 32])
    {
    }
  }

  lemma {:induction false} PlaceInChain(data: seq<seq<byte>>, chain: seq<nat>, i: nat)
    requires Within(data, chain) && i < |Slots(data, chain)|
    ensures Places(data, chain)[i].0 in chain
    ensures var p := Places(data, chain)[i];
      p.1 < |data[p.0]| / 32 && ClusterSlots(data[p.0])[p.1] == Slots(data, chain)[i]
  {
    var n := |ClusterSlots(data[chain[0]])|;
    if i >= n {
      PlaceInChain(data, chain[1..], i - n);
    }
  }

  /** Overwriting one place of a chain overwrites exactly that slot of its slot list. */
  lemma {:induction false} WriteSlot(data: seq<seq<byte>>, chain: seq<nat>, i: nat, e: slot)
    requires Within(data, chain) && Distinct(chain) && i < |Slots(data, chain)|
    ensures var (c, j) := Places(data, chain)[i];
      && c in chain && j < |data[c]| / 32
      && Slots(data[c := Patch(data[c], j, e)], chain) == Slots(data, chain)[i := e]
  {
    PlaceInChain(data, chain, i);
    var (c, j) := Places(data, chain)[i];
    var data' := data[c := Patch(data[c], j, e)];
    var head, tail := ClusterSlots(data[chain[0]]), Slots(data, chain[1..]);
    if i < |head| {
      PatchSlots(data[c], j, e);
      DataFrame(data, data', chain[1..]);
      assert Slots(data, chain)[i := e] == head[i := e] + tail;
    } else {
      WriteSlot(data, chain[1..], i - |head|, e);
      assert data'[chain[0]] == data[chain[0]];
      assert Slots(data, chain)[i := e] == head + tail[i - |head| := e];
    }
  }

  // ---- Reading a directory

  /** Slots after the first end mark never come back to life. */
  predicate Tidy(es: seq<slot>) {
    forall i, j :: 0 <= i < j < |es| && es[i][0] == 0 ==> es[j][0] == 0
  }

  /** The first visible slot with a name, stopping at the end mark. */
  function Find(es: seq<slot>, name: seq<byte>): (r: Option<slot>)
    ensures r.Some? ==> r.value in es && Visible(r.value) && Name(r.value) == name
  {
    if es == [] || es[0][0] == 0 then None
    else if Visible(es[0]) && Name(es[0]) == name then Some(es[0])
    else Find(es[1..], name)
  }

  datatype Node = Directory(cluster: nat) | File(content: seq<byte>)

  /** Names no free slot, end mark or dot entry can carry. */
  predicate PlainName(name: seq<byte>) {
    |name| == 11 && name[0] != 0 && name[0] != 0xE5 && name[0] != 0x2E
  }

  // ---- The catalogue

  /** Every chain in the volume by its first cluster, and which of them are directories. */
  datatype Catalog = Catalog(chains: map<nat, seq<nat>>, dirs: set<nat>)

  predicate HasChains(v: Volume, cat: Catalog) {
    && cat.dirs <= cat.chains.Keys
    && forall k :: k in cat.chains ==> Within(v.data, cat.chains[k])
  }

  function Dir(v: Volume, cat: Catalog, d: nat): (es: seq<slot>)
    requires HasChains(v, cat) && d in cat.dirs
  {
    Slots(v.data, cat.chains[d])
  }

  predicate FileRef(e: slot) {
    InUse(e) && !IsDot(e) && !IsDirectory(e) && FirstCluster(e) != 0
  }

  predicate RefOk(clusterSize: nat, cat: Catalog, e: slot) {
    InUse(e) && !IsDot(e) ==>
      if IsDirectory(e) then FirstCluster(e) in cat.dirs
      else if FirstCluster(e) == 0 then FileSize(e) == 0
      else
        && FirstCluster(e) in cat.chains && FirstCluster(e) !in cat.dirs
        && FileSize(e) <= |cat.chains[FirstCluster(e)]| * clusterSize
  }

  ghost predicate DirOk(clusterSize: nat, cat: Catalog, es: seq<slot>) {
    Tidy(es) && forall i :: 0 <= i < |es| ==> RefOk(clusterSize, cat, es[i])
  }

  /** No two file entries share a first cluster. */
  ghost predicate NoAlias(v: Volume, cat: Catalog)
    requires HasChains(v, cat)
  {
    forall d, d', i, i' ::
      && d in cat.dirs && d' in cat.dirs
      && 0 <= i < |Dir(v, cat, d)| && 0 <= i' < |Dir(v, cat, d')|
      && FileRef(Dir(v, cat, d)[i]) && FileRef(Dir(v, cat, d')[i'])
      && FirstCluster(Dir(v, cat, d)[i]) == FirstCluster(Dir(v, cat, d')[i'])
      ==> d == d' && i == i'
  }

  /** The volume invariant every operation keeps. */
  ghost predicate Inv(v: Volume, cat: Catalog) {
    && v.Valid()
    && ChainsOk(v.fat, cat.chains)
    && HasChains(v, cat)
    && (forall d :: d in cat.dirs ==> DirOk(v.clusterSize, cat, Dir(v, cat, d)))
    && NoAlias(v, cat)
  }

  /** The parts of the invariant that do not look into directories. */
  lemma InvShape(v: Volume, cat: Catalog)
    requires Inv(v, cat)
    ensures v.Valid() && ChainsOk(v.fat, cat.chains) && HasChains(v, cat)
  {
  }

  lemma InvDirsInChains(v: Volume, cat: Catalog)
    requires Inv(v, cat)
    ensures cat.dirs <= cat.chains.Keys
  {
  }

  lemma InvDirectory(v: Volume, cat: Catalog, d: nat)
    requires Inv(v, cat) && d in cat.dirs
    ensures HasChains(v, cat) && IsChain(v.fat, cat.chains[d]) && cat.chains[d][0] == d
    ensures Tidy(Dir(v, cat, d))
  {
    assert DirOk(v.clusterSize, cat, Dir(v, cat, d));
  }

  function NodeOf(v: Volume, cat: Catalog, e: slot): (n: Node)
    requires HasChains(v, cat)
  {
    if IsDirectory(e) then Directory(FirstCluster(e))
    else if FirstCluster(e) !in cat.chains then File([])
    else
      var bytes := Content(v.data, cat.chains[FirstCluster(e)]);
      File(if FileSize(e) <= |bytes| then bytes[..FileSize(e)] else bytes)
  }

  /** The file system as a map from (directory, name) to a file or a directory. */
  function Lookup(v: Volume, cat: Catalog, d: nat, name: seq<byte>): (r: Option<Node>)
    requires HasChains(v, cat) && d in cat.dirs
  {
    match Find(Dir(v, cat, d), name)
    case None => None
    case Some(e) => Some(NodeOf(v, cat, e))
  }
}
