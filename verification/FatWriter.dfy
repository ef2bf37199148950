/** The composer's in-place FAT32 image. */
module FatWriter {
  import opened Bytes
  import opened FatVolume
  import opened FatUpdate
  import opened FatAllocation
  import opened FatNames
  import opened FatStore

  /** The positions of the entries that carry a name. */
  method Matches(ls: seq<Located>, name: seq<byte>) returns (m: seq<nat>)
    ensures MatchesOf(ls, name, m)
  {
    m := [];
    for i := 0 to |ls|
      invariant forall k :: 0 <= k < |m| ==> m[k] < i
      invariant forall k, l :: 0 <= k < l < |m| ==> m[k] < m[l]
      invariant forall j :: 0 <= j < i ==> (j in m <==> IsMatch(ls[j].entry, name))
    {
      if IsMatch(ls[i].entry, name) {
        m := m + [i];
      }
    }
  }

  /** The position of the first vacant entry of a listing, or its length. */
  method FirstFree(ls: seq<Located>) returns (k: nat)
    ensures k <= |ls| && (k < |ls| ==> Vacant(ls[k].entry))
    ensures forall j :: 0 <= j < k ==> !Vacant(ls[j].entry)
  {
    k := 0;
    while k < |ls| && !Vacant(ls[k].entry)
      invariant 0 <= k <= |ls|
      invariant forall j :: 0 <= j < k ==> !Vacant(ls[j].entry)
    {
      k := k + 1;
    }
  }

  /** Size of the whole image file. */
  const RAW_SIZE: nat := 678842880

  lemma NoClusters(size: nat)
    requires size > 0
    ensures ClusterCount(0, size) == 0
  {
  }

  /** A file that can be allocated at all is no larger than the image. */
  lemma FitsImage(fat: seq<nat>, owned: seq<nat>, n: nat, size: nat)
    requires size > 0 && 2 <= |fat| && Enough(fat, owned, ClusterCount(n, size))
    ensures n <= Times(|fat| - 2, size)
  {
    TimesIsProduct(|fat| - 2, size);
    MulLe(ClusterCount(n, size), |fat| - 2, size);
  }

  lemma MadeFile(name: seq<byte>, f: nat, size: nat)
    requires PlainName(name) && 2 <= f < ENTRY_SPAN && size <= U32_MAX
    ensures var e := MakeEntry(name, ATTRIBUTE_ARCHIVE, f, size); e.Some? && FileEntry(e.value, name, f, size)
  {
    hide MakeEntry;
    MadeEntry(name, ATTRIBUTE_ARCHIVE, f, size);
    var e := MakeEntry(name, ATTRIBUTE_ARCHIVE, f, size).value;
    assert e[0] == Name(e)[0];
  }

  /** A directory entry of this name that leads to this cluster. */
  predicate LinksTo(e: slot, name: seq<byte>, cluster: nat) {
    Name(e) == name && Attributes(e) == ATTRIBUTE_DIRECTORY && FirstCluster(e) == cluster
  }

  /** A directory starts with "." for itself and ".." for its parent. */
  predicate Dotted(es: seq<slot>, cluster: nat, parent: nat) {
    |es| >= 2 && LinksTo(es[0], DOT_NAME, cluster) && LinksTo(es[1], DOT_DOT_NAME, parent)
  }

  lemma MadeDots(cluster: nat, parent: nat, size: nat)
    requires 2 <= cluster < ENTRY_SPAN && 2 <= parent < ENTRY_SPAN
    ensures var dot, dotDot := MakeEntry(DOT_NAME, ATTRIBUTE_DIRECTORY, cluster, 0),
      MakeEntry(DOT_DOT_NAME, ATTRIBUTE_DIRECTORY, parent, 0);
      && dot.Some? && dotDot.Some? && IsDot(dot.value) && IsDot(dotDot.value)
      && LinksTo(dot.value, DOT_NAME, cluster) && LinksTo(dotDot.value, DOT_DOT_NAME, parent)
  {
    hide MakeEntry;
    MadeEntry(DOT_NAME, ATTRIBUTE_DIRECTORY, cluster, 0);
    MadeEntry(DOT_DOT_NAME, ATTRIBUTE_DIRECTORY, parent, 0);
    var dot, dotDot := MakeEntry(DOT_NAME, ATTRIBUTE_DIRECTORY, cluster, 0).value,
      MakeEntry(DOT_DOT_NAME, ATTRIBUTE_DIRECTORY, parent, 0).value;
    assert dot[0] == Name(dot)[0] && dotDot[0] == Name(dotDot)[0];
  }

  lemma DirectoryStays(cat: Catalog, es: seq<slot>, name: seq<byte>, i: nat)
    requires i < |es| && IsDirectory(es[i])
    ensures !Replaceable(cat, es, name, i)
  {
  }

  lemma ChainHead(fat: seq<nat>, s: seq<nat>)
    requires IsChain(fat, s)
    ensures s != [] && InRange(fat, s[0])
  {
  }

  class Fat32Image {
    const clusterSize: nat
    const fat: array<nat>
    const data: array<seq<byte>>
    ghost var catalog: Catalog

    /** An image over decoded tables and the catalogue of the chains in use. */
    constructor (clusterSize: nat, fat: array<nat>, data: array<seq<byte>>, ghost catalog: Catalog)
      ensures this.clusterSize == clusterSize && this.fat == fat && this.data == data && this.catalog == catalog
    {
      this.clusterSize, this.fat, this.data, this.catalog := clusterSize, fat, data, catalog;
    }

    ghost function Vol(): Volume
      reads fat, data
    {
      Volume(clusterSize, fat[..], data[..])
    }

    ghost predicate Valid()
      reads fat, data
    {
      && Vol().Valid() && Times(fat.Length - 2, clusterSize) <= RAW_SIZE
      && forall c :: 0 <= c < fat.Length ==> fat[c] <= U32_MAX
    }

    /** Valid, and every file and directory separated as the catalogue says. */
    ghost predicate Sound()
      reads this, fat, data
    {
      Valid() && HasChains(Vol(), catalog) && Inv(Vol(), catalog)
    }

    method SetFatEntry(cluster: nat, value: nat) returns (ok: bool)
      requires Valid()
      modifies fat
      ensures Valid()
      ensures ok <==> InRange(old(fat[..]), cluster) && value < ENTRY_SPAN
      ensures ok ==> fat[..] == old(fat[..])[cluster := WithEntry(old(fat[..])[cluster], value)]
      ensures !ok ==> fat[..] == old(fat[..])
    {
      if cluster < 2 || cluster >= fat.Length || value >= ENTRY_SPAN {
        return false;
      }
      fat[cluster] := WithEntry(fat[cluster], value);
      return true;
    }

    /** Walk one chain; failure means there is none from that cluster. */
    method Chain(start: nat) returns (r: Option<seq<nat>>)
      requires Valid()
      ensures r.Some? ==> IsChain(fat[..], r.value) && r.value[0] == start
      ensures r.None? ==> NoChainFrom(fat[..], start)
    {
      var clusters: seq<nat> := [];
      var seen: set<nat> := {};
      var cluster := start;
      ghost var table := fat[..];
      while true
        invariant Linked(table, clusters) && Distinct(clusters)
        invariant forall c :: c in seen <==> c in clusters
        invariant if clusters == [] then cluster == start
                  else clusters[0] == start && Entry(table, clusters[|clusters| - 1]) == cluster && cluster < EOC_MIN
        invariant |clusters| <= |table| - 2
        decreases |table| - |clusters|
      {
        if cluster in seen || |clusters| >= fat.Length - 2 || cluster < 2 || cluster >= fat.Length {
          DeadEnd(table, clusters, start, cluster);
          return None;
        }
        var following := fat[cluster] % ENTRY_SPAN;
        assert following == Entry(table, cluster);
        ghost var walk := clusters;
        seen := seen + {cluster};
        clusters := clusters + [cluster];
        StepLinked(table, walk, cluster);
        if following >= EOC_MIN {
          return Some(clusters);
        }
        if following < 2 || following == BAD_CLUSTER {
          DeadEnd(table, walk, start, cluster);
          return None;
        }
        cluster := following;
      }
    }

    /** List a directory; failure means the cluster heads no chain. */
    method DirectoryEntries(cluster: nat) returns (r: Option<seq<Located>>, ghost chain: seq<nat>)
      requires Valid()
      ensures r.Some? ==> IsChain(fat[..], chain) && chain[0] == cluster && Within(data[..], chain)
      ensures r.Some? ==> Listed(Slots(data[..], chain), Places(data[..], chain), r.value)
      ensures r.None? ==> NoChainFrom(fat[..], cluster)
    {
      var walked := Chain(cluster);
      if walked.None? {
        return None, [];
      }
      var members := walked.value;
      ghost var blocks := data[..];
      var entries: seq<Located> := [];
      var endSeen := false;
      for k := 0 to |members|
        invariant Listed(Slots(blocks, members[..k]), Places(blocks, members[..k]), entries)
        invariant endSeen == Ended(Slots(blocks, members[..k]), |entries|)
      {
        ghost var es, ps := Slots(blocks, members[..k]), Places(blocks, members[..k]);
        assert members[..k + 1] == members[..k] + [members[k]];
        SlotsAppend(blocks, members[..k], [members[k]]);
        PlacesAppend(blocks, members[..k], [members[k]]);
        entries, endSeen := ListCluster(members[k], es, ps, entries, endSeen);
      }
      assert members[..|members|] == members;
      return Some(entries), members;
    }

    /** Append the slots of one cluster to a listing. */
    method ListCluster(member: nat, ghost es: seq<slot>, ghost ps: seq<(nat, nat)>, before: seq<Located>, ended: bool)
      returns (entries: seq<Located>, endSeen: bool)
      requires Valid() && InRange(fat[..], member)
      requires Listed(es, ps, before) && ended == Ended(es, |es|)
      ensures Listed(es + Slots(data[..], [member]), ps + Places(data[..], [member]), entries)
      ensures endSeen == Ended(es + Slots(data[..], [member]), |entries|)
    {
      hide Listed, Ended, Places, Slots;
      entries, endSeen := before, ended;
      var block := data[member];
      ghost var own, at := ClusterSlots(block), Places(data[..], [member]);
      OneCluster(data[..], member, clusterSize);
      ListedLength(es, ps, before);
      assert es + own[..0] == es && ps + at[..0] == ps;
      for j := 0 to clusterSize / 32
        invariant Listed(es + own[..j], ps + at[..j], entries)
        invariant endSeen == Ended(es + own[..j], |entries|)
      {
        var entry: slot := block[32 * j..32 * j + 32];
        ListNext(es, own, ps, at, entries, j);
        if endSeen {
          entries := entries + [Located(member, j, Zeros(32))];
        } else {
          entries := entries + [Located(member, j, entry)];
          endSeen := entry[0] == 0;
        }
      }
      assert own[..clusterSize / 32] == own && at[..clusterSize / 32] == at;
    }

    /** The clusters an allocation would take, or fewer when the volume is too full. */
    method PickClusters(count: nat, reusable: seq<nat>) returns (selected: seq<nat>)
      requires Valid() && 0 < count <= fat.Length - 2
      ensures |selected| == count <==> Enough(fat[..], reusable, count)
      ensures |selected| == count ==> selected == Selected(fat[..], reusable, count)
    {
      selected := if count <= |reusable| then reusable[..count] else reusable;
      ghost var table := fat[..];
      ghost var taken: seq<nat> := [];
      ghost var all := FreeFrom(table, reusable, 2);
      var cluster := 2;
      while cluster < fat.Length && |selected| != count
        invariant 2 <= cluster <= fat.Length
        invariant selected == Reused(reusable, count) + taken && |selected| <= count
        invariant taken + FreeFrom(table, reusable, cluster) == all
      {
        if cluster !in reusable && fat[cluster] % ENTRY_SPAN == 0 {
          TakeOne(table, reusable, Reused(reusable, count), taken, cluster);
          selected := selected + [cluster];
          taken := taken + [cluster];
        } else {
          assert FreeFrom(table, reusable, cluster) == FreeFrom(table, reusable, cluster + 1);
        }
        cluster := cluster + 1;
      }
      assert taken == all[..|taken|];
    }

    method LinkClusters(selected: seq<nat>)
      requires Valid() && Distinct(selected)
      requires forall i :: 0 <= i < |selected| ==> InRange(fat[..], selected[i])
      modifies fat
      ensures Valid()
      ensures Allocated(old(fat[..]), fat[..], [], selected)
    {
      for i := 0 to |selected|
        invariant Valid()
        invariant forall c :: 0 <= c < fat.Length ==> fat[c] / ENTRY_SPAN == old(fat[c]) / ENTRY_SPAN
        invariant forall k :: 0 <= k < i ==> fat[selected[k]] % ENTRY_SPAN == Successor(selected, k)
        invariant forall c :: 0 <= c < fat.Length && c !in selected[..i] ==> fat[c] == old(fat[c])
      {
        var ok := SetFatEntry(selected[i], Successor(selected, i));
        assert selected[..i + 1] == selected[..i] + [selected[i]];
      }
      assert selected[..|selected|] == selected;
    }

    method ReleaseClusters(released: seq<nat>)
      requires Valid()
      requires forall i :: 0 <= i < |released| ==> InRange(fat[..], released[i])
      modifies fat, data
      ensures Valid()
      ensures Cleared(old(fat[..]), fat[..], released)
      ensures Wiped(old(data[..]), data[..], released, clusterSize)
    {
      hide Cleared, Wiped, WithEntry;
      NothingCleared(fat[..], data[..], clusterSize);
      for i := 0 to |released|
        invariant Valid()
        invariant Cleared(old(fat[..]), fat[..], released[..i])
        invariant Wiped(old(data[..]), data[..], released[..i], clusterSize)
      {
        ghost var table, blocks := fat[..], data[..];
        var ok := SetFatEntry(released[i], 0);
        data[released[i]] := Zeros(clusterSize);
        assert data[..] == blocks[released[i] := Zeros(clusterSize)];
        assert released[..i + 1] == released[..i] + [released[i]];
        ClearedNext(old(fat[..]), table, released[..i], released[i]);
        WipedNext(old(data[..]), blocks, released[..i], released[i], clusterSize);
      }
      assert released[..|released|] == released;
    }

    /** Allocate exactly `count` clusters, the owned chain first; on failure nothing changes. */
    method Allocate(count: nat, reusable: seq<nat>) returns (r: Option<seq<nat>>)
      requires Valid() && Owned(fat[..], reusable)
      modifies fat, data
      ensures Valid()
      ensures r.Some? <==> Enough(old(fat[..]), reusable, count)
      ensures r.None? ==> Vol() == old(Vol())
      ensures r.Some? ==> r.value == Selected(old(fat[..]), reusable, count)
      ensures r.Some? ==> Allocated(old(fat[..]), fat[..], reusable, r.value)
      ensures r.Some? ==> Wiped(old(data[..]), data[..], Surplus(reusable, count), clusterSize)
    {
      if count == 0 || count > fat.Length - 2 {
        return None;
      }
      var selected := PickClusters(count, reusable);
      if |selected| != count {
        return None;
      }
      SelectedSpec(fat[..], reusable, count);
      LinkClusters(selected);
      ghost var linked := fat[..];
      ReleaseClusters(if count <= |reusable| then reusable[count..] else []);
      AllocationSteps(old(fat[..]), linked, fat[..], reusable, count);
      return Some(selected);
    }

    /** Write exact content and zero the rest of the last cluster. */
    method WriteClusters(clusters: seq<nat>, bytes: seq<byte>) returns (ok: bool)
      requires Valid() && Distinct(clusters)
      requires forall i :: 0 <= i < |clusters| ==> InRange(fat[..], clusters[i])
      modifies data
      ensures Valid()
      ensures ok <==> bytes != [] && |bytes| <= |clusters| * clusterSize
      ensures !ok ==> data[..] == old(data[..])
      ensures Within(data[..], clusters)
      ensures ok ==> Content(data[..], clusters) == bytes + Zeros(|clusters| * clusterSize - |bytes|)
      ensures forall c :: 0 <= c < data.Length && c !in clusters ==> data[c] == old(data[c])
    {
      var capacity := |clusters| * clusterSize;
      if |bytes| == 0 || |bytes| > capacity {
        return false;
      }
      var padded := bytes + Zeros(capacity - |bytes|);
      for i := 0 to |clusters|
        invariant Valid()
        invariant forall k :: 0 <= k < i ==> IsChunk(data[clusters[k]], padded, clusterSize, k)
        invariant forall c :: 0 <= c < data.Length && c !in clusters[..i] ==> data[c] == old(data[c])
      {
        ChunkBounds(i, |clusters|, clusterSize);
        data[clusters[i]] := padded[i * clusterSize..(i + 1) * clusterSize];
        assert clusters[..i + 1] == clusters[..i] + [clusters[i]];
      }
      ContentFromChunks(data[..], clusters, padded, clusterSize, |clusters|);
      assert clusters[..|clusters|] == clusters;
      return true;
    }

    /** Overwrite one directory slot. */
    method WriteEntry(cluster: nat, index: nat, entry: slot)
      requires Valid() && InRange(fat[..], cluster) && index < clusterSize / 32
      modifies data
      ensures Valid()
      ensures data[..] == old(data[..])[cluster := Patch(old(data[..])[cluster], index, entry)]
    {
      data[cluster] := Patch(data[cluster], index, entry);
    }

    /** The first vacant slot of a directory, growing it by one zeroed cluster when it is full. */
    method FreeDirectorySlot(directory: nat) returns (r: Option<(nat, nat)>, ghost i: nat)
      requires Sound() && directory in catalog.dirs
      modifies fat, data, this`catalog
      ensures Sound() && Grown(old(Vol()), old(catalog), Vol(), catalog)
      ensures r.None? ==> Vol() == old(Vol()) && catalog == old(catalog)
      ensures r.Some? <==> Spare(old(Dir(Vol(), catalog, directory))) <= |FreeSet(old(fat[..]))|
      ensures r.Some? ==> FirstVacant(Dir(Vol(), catalog, directory), i)
      ensures r.Some? ==> r.value == Places(data[..], catalog.chains[directory])[i]
    {
      hide FreeSet;
      hide Inv, Grown, IsChain, NoChainFrom, Listed, Tidy, FirstVacant;
      r, i := None, 0;
      GrownRefl(Vol(), catalog);
      InvDirectory(Vol(), catalog, directory);
      ChainExists(fat[..], catalog.chains[directory], directory);
      var listing, chain := DirectoryEntries(directory);
      if listing.None? {
        return;
      }
      ChainUnique(fat[..], chain, catalog.chains[directory]);
      var k := FirstFree(listing.value);
      ListedVacancy(Dir(Vol(), catalog, directory), Places(data[..], chain), listing.value, k);
      if k < |listing.value| {
        return Some((listing.value[k].cluster, listing.value[k].index)), k;
      }
      r, i := ExtendFull(directory, chain);
    }

    /** The growing half of `FreeDirectorySlot`. */
    method ExtendFull(directory: nat, ghost chain: seq<nat>) returns (r: Option<(nat, nat)>, ghost i: nat)
      requires Sound() && directory in catalog.dirs && chain == catalog.chains[directory]
      requires forall k :: 0 <= k < |Dir(Vol(), catalog, directory)| ==> !Vacant(Dir(Vol(), catalog, directory)[k])
      modifies fat, data, this`catalog
      ensures Sound() && Grown(old(Vol()), old(catalog), Vol(), catalog)
      ensures r.None? ==> Vol() == old(Vol()) && catalog == old(catalog)
      ensures r.Some? <==> |FreeSet(old(fat[..]))| > 0
      ensures r.Some? ==> FirstVacant(Dir(Vol(), catalog, directory), i)
      ensures r.Some? ==> r.value == Places(data[..], catalog.chains[directory])[i]
    {
      hide FreeSet;
      r, i := None, 0;
      GrownRefl(Vol(), catalog);
      InvDirectory(Vol(), catalog, directory);
      ChainExists(fat[..], catalog.chains[directory], directory);
      var walked := Chain(directory);
      if walked.None? {
        return;
      }
      ChainUnique(fat[..], walked.value, chain);
      ghost var v, cat := Vol(), catalog;
      var extension := AppendCluster(directory, walked.value, cat.chains);
      if extension.None? {
        return;
      }
      catalog := Catalog(cat.chains[directory := chain + [extension.value]], cat.dirs);
      ExtendAll(v, cat, directory, Vol(), extension.value);
      i := |Dir(v, cat, directory)|;
      r := Some((extension.value, 0));
    }

    /** Allocate one zeroed cluster and link it behind a chain. */
    method AppendCluster(directory: nat, chain: seq<nat>, ghost chains: map<nat, seq<nat>>) returns (r: Option<nat>)
      requires Valid() && ChainsOk(fat[..], chains) && directory in chains && chains[directory] == chain
      modifies fat, data
      ensures Valid()
      ensures r.None? ==> Vol() == old(Vol())
      ensures r.Some? <==> |FreeSet(old(fat[..]))| > 0
      ensures r.Some? ==>
        && InRange(old(fat[..]), r.value) && (forall k :: k in chains ==> r.value !in chains[k])
        && data[..] == old(data[..])[r.value := Zeros(clusterSize)]
        && ChainsOk(fat[..], chains[directory := chain + [r.value]])
    {
      hide Enough, Selected, Allocated, Wiped, ChainsOk, FreeSet, Owned;
      NothingOwned(fat[..]);
      LastInRange(fat[..], chains, directory);
      EnoughIff(fat[..], [], 1);
      var extension := Allocate(1, []);
      if extension.None? {
        return None;
      }
      var ext := extension.value[0];
      ghost var linked := fat[..];
      AllocateOne(old(fat[..]), linked, chains, directory, extension.value);
      assert chains[ext := [ext]][directory] == chain;
      var ok := SetFatEntry(chain[|chain| - 1], ext);
      data[ext] := Zeros(clusterSize);
      JoinChain(linked, fat[..], chains, directory, ext);
      return Some(ext);
    }

    /** The file-system map after a call differs from the old one at no other place than (directory, name). */
    twostate predicate OthersSame(directory: nat, name: seq<byte>)
      requires old(Sound()) && Sound()
      reads this, fat, data
    {
      && catalog.dirs == old(catalog.dirs)
      && forall d, n :: d in catalog.dirs && PlainName(n) && !(d == directory && n == name) ==>
           Lookup(Vol(), catalog, d, n) == old(Lookup(Vol(), catalog, d, n))
    }

    /** Store a file under a name no entry has yet. */
    method CreateFile(directory: nat, name: seq<byte>, bytes: seq<byte>) returns (ok: bool)
      requires Sound() && directory in catalog.dirs && PlainName(name)
      requires NameFree(Dir(Vol(), catalog, directory), name)
      modifies fat, data, this`catalog
      ensures Sound() && OthersSame(directory, name)
      ensures ok ==> Lookup(Vol(), catalog, directory, name) == Some(File(bytes))
      ensures !ok ==> Lookup(Vol(), catalog, directory, name) == old(Lookup(Vol(), catalog, directory, name))
      ensures ok <==>
        bytes != []
          && ClusterCount(|bytes|, clusterSize) + Spare(old(Dir(Vol(), catalog, directory))) <= |FreeSet(old(fat[..]))|
    {
      hide Spare;
      hide Inv, Grown, Unreferenced, FirstVacant, NameFree, Lookup, Slots, Places, Content;
      hide FreeSet, ClusterCount, FileEntry, MakeEntry;
      ok := false;
      ghost var v0, cat0 := Vol(), catalog;
      var clusters := AllocateFile(bytes);
      if clusters.None? {
        return;
      }
      var f := clusters.value[0];
      ghost var v1, cat1 := Vol(), catalog;
      FreshUnreferenced(v0, cat0, v1, cat1, f);
      var place, i := FreeDirectorySlot(directory);
      ghost var v2, cat2 := Vol(), catalog;
      GrownNodes(v1, cat1, v2, cat2);
      if place.None? {
        return;
      }
      MadeFile(name, f, |bytes|);
      var entry := MakeEntry(name, ATTRIBUTE_ARCHIVE, f, |bytes|);
      if entry.None? {
        return;
      }
      StoreNew(v1, cat1, v2, cat2, directory, i, entry.value, f, name, bytes);
      WriteEntry(place.value.0, place.value.1, entry.value);
      assert Vol() == WithSlot(v2, place.value.0, place.value.1, entry.value);
      ok := true;
    }

    /** Allocate and fill the chain of a new file; it is in the catalogue but named by no entry. */
    method AllocateFile(bytes: seq<byte>) returns (r: Option<seq<nat>>)
      requires Sound()
      modifies fat, data, this`catalog
      ensures Sound() && catalog.dirs == old(catalog.dirs)
      ensures r.None? ==> Vol() == old(Vol()) && catalog == old(catalog)
      ensures r.Some? <==> bytes != [] && ClusterCount(|bytes|, clusterSize) <= |FreeSet(old(fat[..]))|
      ensures r.Some? ==>
        && r.value != [] && r.value[0] !in old(catalog.chains) && 2 <= r.value[0] < ENTRY_SPAN
        && catalog.chains == old(catalog.chains)[r.value[0] := r.value] && r.value[0] in catalog.chains
        && bytes <= Content(data[..], catalog.chains[r.value[0]])
        && |bytes| <= |r.value| * clusterSize && |bytes| <= RAW_SIZE
        && |FreeSet(fat[..])| == |FreeSet(old(fat[..]))| - ClusterCount(|bytes|, clusterSize)
      ensures SameNodes(old(Vol()), old(catalog), Vol(), catalog)
      ensures forall d :: d in catalog.dirs ==> Dir(Vol(), catalog, d) == old(Dir(Vol(), catalog, d))
    {
      hide Inv;
      ghost var v, cat := Vol(), catalog;
      var clusters := FillClusters(bytes, []);
      if clusters.None? {
        return None;
      }
      AddFile(v, cat, Vol(), clusters.value, bytes);
      catalog := Catalog(cat.chains[clusters.value[0] := clusters.value], cat.dirs);
      return clusters;
    }

    /** Allocate the clusters for some bytes, reusing an owned chain, and write them. */
    method FillClusters(bytes: seq<byte>, reusable: seq<nat>) returns (r: Option<seq<nat>>)
      requires Valid() && Owned(fat[..], reusable)
      modifies fat, data
      ensures Valid()
      ensures r.None? ==> Vol() == old(Vol())
      ensures r.Some? <==> bytes != [] && ClusterCount(|bytes|, clusterSize) <= |FreeSet(old(fat[..]))| + |reusable|
      ensures r.Some? ==> Filled(old(Vol()), Vol(), reusable, r.value, bytes) && |bytes| <= RAW_SIZE
      ensures r.Some? ==>
        |FreeSet(fat[..])| == |FreeSet(old(fat[..]))| + |reusable| - ClusterCount(|bytes|, clusterSize)
    {
      hide Enough, Selected, Allocated, Wiped;
      hide Owned, Filled, Surplus, FreeSet;
      ghost var v := Vol();
      var count := (|bytes| + clusterSize - 1) / clusterSize;
      assert count == ClusterCount(|bytes|, clusterSize);
      NoClusters(clusterSize);
      EnoughIff(fat[..], reusable, count);
      var clusters := Allocate(count, reusable);
      if clusters.None? {
        return None;
      }
      ghost var w := Vol();
      SelectedShape(v.fat, reusable, count);
      FitsImage(v.fat, reusable, |bytes|, clusterSize);
      var wrote := WriteClusters(clusters.value, bytes);
      FillResult(v, w, Vol(), reusable, clusters.value, bytes);
      return clusters;
    }

    /** Rewrite an existing file in place, reusing its chain first. */
    method ReplaceFile(directory: nat, found: Located, ghost i: nat, name: seq<byte>, bytes: seq<byte>)
        returns (ok: bool)
      requires Sound() && directory in catalog.dirs && PlainName(name)
      requires i < |Dir(Vol(), catalog, directory)| && Storable(Dir(Vol(), catalog, directory), i, name)
      requires Dir(Vol(), catalog, directory)[i] == found.entry && IsMatch(found.entry, name)
        && !IsDirectory(found.entry)
      requires Places(data[..], catalog.chains[directory])[i] == (found.cluster, found.index)
      modifies fat, data, this`catalog
      ensures Sound() && OthersSame(directory, name)
      ensures ok ==> Lookup(Vol(), catalog, directory, name) == Some(File(bytes))
      ensures !ok ==> Vol() == old(Vol()) && catalog == old(catalog)
      ensures ok <==> bytes != [] && Replaceable(old(catalog), old(Dir(Vol(), catalog, directory)), name, i)
                      && ClusterCount(|bytes|, clusterSize) <=
                         |FreeSet(old(fat[..]))| + |old(catalog.chains)[FirstCluster(found.entry)]|
    {
      hide Inv, OnlyRef, Filled, IsChain, Owned;
      hide Storable, NoChainFrom, FileEntry, MakeEntry, FreeSet, ClusterCount;
      ok := false;
      ghost var v, cat := Vol(), catalog;
      var f := FirstCluster(found.entry);
      if f != 0 {
        EntryChain(v, cat, directory, i);
        ChainExists(v.fat, cat.chains[f], f);
      }
      var walked := Chain(f);
      if walked.None? {
        return;
      }
      SameChain(v, cat, f, walked.value);
      var clusters := FillClusters(bytes, walked.value);
      if clusters.None? {
        return;
      }
      FilledHead(v, Vol(), walked.value, clusters.value, bytes);
      var entry := MakeEntry(name, ATTRIBUTE_ARCHIVE, clusters.value[0], |bytes|);
      MadeFile(name, f, |bytes|);
      StoreReplacement(v, cat, Vol(), clusters.value, directory, i, entry.value, f, name, bytes);
      ghost var w := Vol();
      WriteEntry(found.cluster, found.index, entry.value);
      catalog := Catalog(cat.chains[f := clusters.value], cat.dirs);
      assert Vol() == WithSlot(w, found.cluster, found.index, entry.value);
      ok := true;
    }

    /** Create or replace one regular file with exact bytes. */
    method PutFile(directory: nat, component: seq<byte>, bytes: seq<byte>) returns (ok: bool)
      requires Sound() && directory in catalog.dirs
      modifies fat, data, this`catalog
      ensures Sound()
      ensures ok ==> ShortName(component).Some?
      ensures ok ==> OthersSame(directory, ShortName(component).value)
      ensures ok ==> !old(ShowsDirectory(Vol(), catalog, directory, ShortName(component).value))
      ensures ok ==> Lookup(Vol(), catalog, directory, ShortName(component).value) == Some(File(bytes))
      ensures !ok ==> catalog.dirs == old(catalog.dirs) && SameNodes(old(Vol()), old(catalog), Vol(), catalog)
      ensures ok <==>
        ShortName(component).Some? && old(PutFits(Vol(), catalog, directory, ShortName(component).value, |bytes|))
    {
      hide Inv, IsChain, NoChainFrom, Listed;
      hide Storable, MatchesOf, Tidy, NameFree, ShowsDirectory, PutFits, Replaceable, Spare, FreeSet, ClusterCount,
        Ambiguous;
      ok := false;
      InvDirectory(Vol(), catalog, directory);
      ghost var es := Dir(Vol(), catalog, directory);
      var name := ShortName(component);
      if name.None? {
        return;
      }
      ChainExists(fat[..], catalog.chains[directory], directory);
      var listing, chain := DirectoryEntries(directory);
      if listing.None? {
        return;
      }
      ChainUnique(fat[..], chain, catalog.chains[directory]);
      var m := Matches(listing.value, name.value);
      MatchCases(es, Places(data[..], chain), listing.value, name.value, m);
      if |m| > 1 {
        AmbiguousFails(Vol(), catalog, directory, name.value, |bytes|);
        return;
      }
      if |m| == 0 {
        NewDecides(Vol(), catalog, directory, name.value, |bytes|);
        NoDirectoryNamed(Vol(), catalog, directory, name.value);
        ok := CreateFile(directory, name.value, bytes);
        return;
      }
      ListedAt(es, Places(data[..], chain), listing.value, m[0]);
      OnlyDecides(Vol(), catalog, directory, name.value, |bytes|, m[0]);
      var found := listing.value[m[0]];
      if IsDirectory(found.entry) {
        DirectoryStays(catalog, es, name.value, m[0]);
        return;
      }
      OnlyFileNamed(Vol(), catalog, directory, name.value, m[0]);
      ok := ReplaceFile(directory, found, m[0], name.value, bytes);
    }

    /** Allocate and fill the first cluster of a directory; no entry names it yet. */
    method AllocateDirectory(parent: nat) returns (r: Option<nat>)
      requires Sound() && parent in catalog.dirs
      modifies fat, data, this`catalog
      ensures Sound() && catalog.dirs == old(catalog.dirs)
      ensures r.None? ==> Vol() == old(Vol()) && catalog == old(catalog)
      ensures r.Some? <==> |FreeSet(old(fat[..]))| > 0
      ensures r.Some? ==> |FreeSet(fat[..])| == |FreeSet(old(fat[..]))| - 1
      ensures r.Some? ==>
        && r.value !in old(catalog.chains) && 2 <= r.value < ENTRY_SPAN && r.value in catalog.chains
        && catalog.chains[r.value] == [r.value]
        && FreshDirectory(Slots(data[..], catalog.chains[r.value]))
        && Dotted(Slots(data[..], catalog.chains[r.value]), r.value, parent)
      ensures SameNodes(old(Vol()), old(catalog), Vol(), catalog)
      ensures forall d :: d in catalog.dirs ==> Dir(Vol(), catalog, d) == old(Dir(Vol(), catalog, d))
    {
      hide Inv, Enough, Selected, Allocated, Wiped, Filled, FreshDirectory, Lookup, Owned, IsChain, Slots, FreeSet,
        Dotted;
      ghost var v, cat := Vol(), catalog;
      InvDirectory(v, cat, parent);
      ChainHead(v.fat, cat.chains[parent]);
      NothingOwned(v.fat);
      EnoughIff(v.fat, [], 1);
      var clusters := Allocate(1, []);
      if clusters.None? {
        return None;
      }
      FreeConservation(v.fat, fat[..], [], 1);
      ghost var w := Vol();
      SelectedShape(v.fat, [], 1);
      var cluster := clusters.value[0];
      WriteDots(cluster, parent);
      FillOne(v, w, Vol(), clusters.value);
      AddFile(v, cat, Vol(), [cluster], data[cluster]);
      SingletonCluster(data[..], cluster);
      catalog := Catalog(cat.chains[cluster := [cluster]], cat.dirs);
      return Some(cluster);
    }

    /** Write the dot entries of a new directory and zero the rest of its cluster. */
    method WriteDots(cluster: nat, parent: nat)
      requires Valid() && InRange(fat[..], cluster) && InRange(fat[..], parent)
      modifies data
      ensures Valid() && FreshDirectory(ClusterSlots(data[cluster]))
        && Dotted(ClusterSlots(data[cluster]), cluster, parent)
      ensures forall c :: 0 <= c < data.Length && c != cluster ==> data[c] == old(data[c])
    {
      hide FreshDirectory, MakeEntry, IsDot, LinksTo;
      MadeDots(cluster, parent, clusterSize);
      var dot := MakeEntry(DOT_NAME, ATTRIBUTE_DIRECTORY, cluster, 0);
      var dotDot := MakeEntry(DOT_DOT_NAME, ATTRIBUTE_DIRECTORY, parent, 0);
      FreshCluster(dot.value, dotDot.value, clusterSize);
      var first: seq<byte>, second: seq<byte> := dot.value, dotDot.value;
      data[cluster] := first + second + Zeros(clusterSize - 64);
    }

    /** Create a directory under a name no entry has yet. */
    method CreateDirectory(parent: nat, name: seq<byte>) returns (r: Option<nat>)
      requires Sound() && parent in catalog.dirs && PlainName(name)
      requires NameFree(Dir(Vol(), catalog, parent), name)
      modifies fat, data, this`catalog
      ensures Sound() && old(catalog.dirs) <= catalog.dirs
      ensures r.None? ==> catalog.dirs == old(catalog.dirs) && SameNodes(old(Vol()), old(catalog), Vol(), catalog)
      ensures r.Some? ==> r.value !in old(catalog.dirs) && catalog.dirs == old(catalog.dirs) + {r.value}
      ensures r.Some? ==> DirectoryMade(old(Vol()), old(catalog), Vol(), catalog, parent, name, r.value)
      ensures r.Some? ==> Dotted(Dir(Vol(), catalog, r.value), r.value, parent)
      ensures r.Some? <==> 1 + Spare(old(Dir(Vol(), catalog, parent))) <= |FreeSet(old(fat[..]))|
    {
      hide Spare, FreeSet, Dotted;
      hide Inv, Grown, Unreferenced, FirstVacant, FreshDirectory, NameFree, Lookup, Slots, Places;
      ghost var v0, cat0 := Vol(), catalog;
      var first := AllocateDirectory(parent);
      if first.None? {
        return None;
      }
      var cluster := first.value;
      ghost var v1, cat1 := Vol(), catalog;
      FreshUnreferenced(v0, cat0, v1, cat1, cluster);
      InvDirsInChains(v0, cat0);
      var place, i := FreeDirectorySlot(parent);
      ghost var v2, cat2 := Vol(), catalog;
      GrownNodes(v1, cat1, v2, cat2);
      if place.None? {
        return None;
      }
      GrownSingleton(v1, cat1, v2, cat2, cluster);
      var entry := MakeEntry(name, ATTRIBUTE_DIRECTORY, cluster, 0);
      MadeEntry(name, ATTRIBUTE_DIRECTORY, cluster, 0);
      StoreDirectory(v1, cat1, v2, cat2, parent, i, entry.value, cluster, name);
      WriteEntry(place.value.0, place.value.1, entry.value);
      catalog := Catalog(cat2.chains, cat2.dirs + {cluster});
      assert Vol() == WithSlot(v2, place.value.0, place.value.1, entry.value);
      return Some(cluster);
    }

    /** Find or create one directory. */
    method EnsureDirectory(parent: nat, component: seq<byte>) returns (r: Option<nat>)
      requires Sound() && parent in catalog.dirs
      modifies fat, data, this`catalog
      ensures Sound() && old(catalog.dirs) <= catalog.dirs
      ensures r.None? ==> catalog.dirs == old(catalog.dirs) && SameNodes(old(Vol()), old(catalog), Vol(), catalog)
      ensures r.Some? ==> ShortName(component).Some? && r.value in catalog.dirs
      ensures r.Some? ==>
        if old(NameFree(Dir(Vol(), catalog, parent), ShortName(component).value))
        then && DirectoryMade(old(Vol()), old(catalog), Vol(), catalog, parent, ShortName(component).value, r.value)
             && Dotted(Dir(Vol(), catalog, r.value), r.value, parent)
        else
          && Vol() == old(Vol()) && catalog == old(catalog)
          && OnlyDirectory(Dir(Vol(), catalog, parent), ShortName(component).value, r.value)
      ensures r.Some? <==>
        ShortName(component).Some? && old(DirectoryFits(Vol(), catalog, parent, ShortName(component).value))
    {
      hide Inv, IsChain, NoChainFrom, Listed, Storable, MatchesOf, Tidy, NameFree, DirectoryMade;
      hide DirectoryFits, Spare, FreeSet, Ambiguous, OnlyDirectory, Dotted;
      r := None;
      ghost var v, cat := Vol(), catalog;
      InvDirectory(v, cat, parent);
      ghost var es := Dir(v, cat, parent);
      var name := ShortName(component);
      if name.None? {
        return;
      }
      ChainExists(v.fat, cat.chains[parent], parent);
      var listing, chain := DirectoryEntries(parent);
      if listing.None? {
        return;
      }
      ChainUnique(v.fat, chain, cat.chains[parent]);
      var m := Matches(listing.value, name.value);
      MatchCases(es, Places(v.data, chain), listing.value, name.value, m);
      if |m| > 1 {
        AmbiguousFails(v, cat, parent, name.value, 0);
        return;
      }
      if |m| == 0 {
        NewDecides(v, cat, parent, name.value, 0);
        r := CreateDirectory(parent, name.value);
        return;
      }
      ListedAt(es, Places(v.data, chain), listing.value, m[0]);
      NameTaken(es, name.value, m[0]);
      OnlyDecides(v, cat, parent, name.value, 0, m[0]);
      var found := listing.value[m[0]].entry;
      if !IsDirectory(found) {
        return;
      }
      EntryDirectory(v, cat, parent, m[0], name.value);
      SoleDirectory(es, name.value, m[0]);
      r := Some(FirstCluster(found));
    }
  }

  const DOT_NAME: seq<byte> := [0x2E, 0x20, 0x20, 0x20, 0x20, 0x20, 0x20, 0x20, 0x20, 0x20, 0x20]
  const DOT_DOT_NAME: seq<byte> := [0x2E, 0x2E, 0x20, 0x20, 0x20, 0x20, 0x20, 0x20, 0x20, 0x20, 0x20]

  /** The map gained one empty directory at (parent, name) and is otherwise the same. */
  ghost predicate DirectoryMade(v: Volume, cat: Catalog, v': Volume, cat': Catalog, parent: nat, name: seq<byte>,
      c: nat)
    requires HasChains(v, cat) && HasChains(v', cat')
  {
    && cat'.dirs == cat.dirs + {c}
    && forall d, n :: d in cat'.dirs && PlainName(n) ==>
         Lookup(v', cat', d, n) ==
           if d !in cat.dirs then None
           else if d == parent && n == name then Some(Directory(c))
           else Lookup(v, cat, d, n)
  }
}
