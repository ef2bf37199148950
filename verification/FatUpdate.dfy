/**
 What one update of a volume preserves: adding a chain, extending a directory and
 storing an entry each keep the catalogue invariant and change the file system map
 at no other place than the one stored to.
 */
module FatUpdate {
  import opened Bytes
  import opened FatVolume

  // ---- Searching an updated directory

  lemma {:induction false} FindSplit(a: seq<slot>, b: seq<slot>, name: seq<byte>)
    requires forall k :: 0 <= k < |a| ==> a[k][0] != 0
    ensures Find(a + b, name) == if Find(a, name).Some? then Find(a, name) else Find(b, name)
  {
    if a == [] {
      assert a + b == b;
    } else {
      FindSplit(a[1..], b, name);
      assert (a + b)[1..] == a[1..] + b;
    }
  }

  lemma {:induction false} FindNone(es: seq<slot>, name: seq<byte>)
    requires forall k :: 0 <= k < |es| ==> !(Visible(es[k]) && Name(es[k]) == name)
    ensures Find(es, name) == None
  {
    if es != [] {
      FindNone(es[1..], name);
    }
  }

  /** A slot a named entry may be stored in: the first vacant one, or the one entry of that name. */
  predicate Storable(es: seq<slot>, i: nat, name: seq<byte>) {
    && i < |es|
    && (forall k :: 0 <= k < |es| && k != i ==> !(InUse(es[k]) && Name(es[k]) == name))
    && (|| (Vacant(es[i]) && forall k :: 0 <= k < i ==> !Vacant(es[k]))
        || (InUse(es[i]) && Name(es[i]) == name))
  }

  lemma FindStored(es: seq<slot>, i: nat, name: seq<byte>, e: slot, n: seq<byte>)
    requires Tidy(es) && Storable(es, i, name)
    requires Visible(e) && Name(e) == name
    ensures Tidy(es[i := e])
    ensures Find(es[i := e], n) == if n == name then Some(e) else Find(es, n)
  {
    var es' := es[i := e];
    var a, b := es[..i], es[i + 1..];
    assert es' == a + ([e] + b);
    assert es == a + ([es[i]] + b);
    assert forall k :: 0 <= k < i ==> es[k][0] != 0;
    assert Tidy(es') by {
      forall k, l | 0 <= k < l < |es'| && es'[k][0] == 0 ensures es'[l][0] == 0 {
        assert es[k][0] == 0;
      }
    }
    FindSplit(a, [e] + b, n);
    FindSplit(a, [es[i]] + b, n);
    assert ([e] + b)[1..] == b && ([es[i]] + b)[1..] == b;
    if n == name {
      FindNone(a, n);
    } else if es[i][0] == 0 {
      assert b == [] || b[0][0] == 0 by {
        if b != [] { assert b[0] == es[i + 1]; }
      }
    } else if Visible(es[i]) {
      assert Name(es[i]) == name;
    }
  }

  // ---- Adding and extending

  /** A fresh chain, referred to by nothing yet. */
  lemma AddChain(v: Volume, cat: Catalog, v': Volume, s: seq<nat>)
    requires Inv(v, cat) && v'.Valid() && v'.clusterSize == v.clusterSize && |v'.data| == |v.data|
    requires s != [] && s[0] !in cat.chains
    requires ChainsOk(v'.fat, cat.chains[s[0] := s]) && Within(v'.data, s)
    requires forall k, c :: k in cat.chains && c in cat.chains[k] ==> v'.data[c] == v.data[c]
    ensures var cat' := Catalog(cat.chains[s[0] := s], cat.dirs);
      && Inv(v', cat') && SameNodes(v, cat, v', cat')
      && (forall d :: d in cat.dirs ==> Dir(v', cat', d) == Dir(v, cat, d))
      && SameFiles(v, cat, v', cat', 0)
  {
    var cat' := Catalog(cat.chains[s[0] := s], cat.dirs);
    AddedSlots(v, cat, v', s);
    forall d | d in cat.dirs ensures DirOk(v.clusterSize, cat', Dir(v', cat', d)) {
      assert DirOk(v.clusterSize, cat, Dir(v, cat, d));
      RefsGrow(v.clusterSize, cat, cat', Dir(v, cat, d));
    }
    forall d, n | d in cat.dirs && PlainName(n)
      ensures Lookup(v', cat', d, n) == Lookup(v, cat, d, n)
    {
      LookupSame(v, cat, v', cat', 0, d, n);
    }
  }

  lemma AddedSlots(v: Volume, cat: Catalog, v': Volume, s: seq<nat>)
    requires HasChains(v, cat) && |v'.data| == |v.data|
    requires s != [] && s[0] !in cat.chains && Within(v'.data, s)
    requires forall k, c :: k in cat.chains && c in cat.chains[k] ==> v'.data[c] == v.data[c]
    ensures var cat' := Catalog(cat.chains[s[0] := s], cat.dirs);
      && HasChains(v', cat')
      && (forall d :: d in cat.dirs ==> Dir(v', cat', d) == Dir(v, cat, d))
      && SameFiles(v, cat, v', cat', 0)
  {
    forall k | k in cat.chains
      ensures Slots(v'.data, cat.chains[k]) == Slots(v.data, cat.chains[k])
      ensures Content(v'.data, cat.chains[k]) == Content(v.data, cat.chains[k])
    {
      assert forall i :: 0 <= i < |cat.chains[k]| ==> cat.chains[k][i] in cat.chains[k];
      DataFrame(v.data, v'.data, cat.chains[k]);
    }
  }

  /** References stay good when chains are added or directories grow. */
  lemma RefsGrow(clusterSize: nat, cat: Catalog, cat': Catalog, es: seq<slot>)
    requires DirOk(clusterSize, cat, es)
    requires cat.dirs <= cat'.dirs && cat.chains.Keys <= cat'.chains.Keys
    requires forall k :: k in cat.chains && k !in cat.dirs ==> k !in cat'.dirs && cat'.chains[k] == cat.chains[k]
    ensures DirOk(clusterSize, cat', es)
  {
    forall i | 0 <= i < |es| ensures RefOk(clusterSize, cat', es[i]) {
      assert RefOk(clusterSize, cat, es[i]);
    }
  }

  /** The file system map is the same in both states. */
  ghost predicate SameNodes(v: Volume, cat: Catalog, v': Volume, cat': Catalog)
    requires HasChains(v, cat) && HasChains(v', cat')
  {
    && cat.dirs <= cat'.dirs
    && forall d, n :: d in cat.dirs && PlainName(n) ==> Lookup(v', cat', d, n) == Lookup(v, cat, d, n)
  }

  /** Every file chain but `f` still has its bytes. */
  ghost predicate SameFiles(v: Volume, cat: Catalog, v': Volume, cat': Catalog, f: nat)
    requires HasChains(v, cat) && HasChains(v', cat')
  {
    forall k :: k in cat.chains && k !in cat.dirs && k != f ==>
      k in cat'.chains && Content(v'.data, cat'.chains[k]) == Content(v.data, cat.chains[k])
  }

  lemma NodeSame(v: Volume, cat: Catalog, v': Volume, cat': Catalog, f: nat, e: slot)
    requires HasChains(v, cat) && HasChains(v', cat') && SameFiles(v, cat, v', cat', f)
    requires InUse(e) && !IsDot(e) && RefOk(v.clusterSize, cat, e)
    requires FileRef(e) ==> FirstCluster(e) != f
    ensures NodeOf(v', cat', e) == NodeOf(v, cat, e)
  {
  }

  /** A name that is found in the same entry leads to the same node. */
  lemma LookupSame(v: Volume, cat: Catalog, v': Volume, cat': Catalog, f: nat, d: nat, n: seq<byte>)
    requires HasChains(v, cat) && HasChains(v', cat') && SameFiles(v, cat, v', cat', f)
    requires d in cat.dirs && d in cat'.dirs && PlainName(n)
    requires DirOk(v.clusterSize, cat, Dir(v, cat, d))
    requires Find(Dir(v', cat', d), n) == Find(Dir(v, cat, d), n)
    requires FoundAvoids(v, cat, f, d, n)
    ensures Lookup(v', cat', d, n) == Lookup(v, cat, d, n)
  {
    var es := Dir(v, cat, d);
    match Find(es, n)
    case None =>
    case Some(e) =>
      var i :| 0 <= i < |es| && es[i] == e;
      assert RefOk(v.clusterSize, cat, es[i]);
      assert e[0] == Name(e)[0];
      NodeSame(v, cat, v', cat', f, e);
  }

  /** A full directory grown by one zeroed cluster. */
  lemma ExtendDirectory(v: Volume, cat: Catalog, dir: nat, v': Volume, ext: nat)
    requires Inv(v, cat) && dir in cat.dirs
    requires forall i :: 0 <= i < |Dir(v, cat, dir)| ==> !Vacant(Dir(v, cat, dir)[i])
    requires v'.Valid() && v'.clusterSize == v.clusterSize && |v'.data| == |v.data| && 2 <= ext < |v.data|
    requires ChainsOk(v'.fat, cat.chains[dir := cat.chains[dir] + [ext]])
    requires v'.data == v.data[ext := Zeros(v.clusterSize)]
    requires forall k :: k in cat.chains ==> ext !in cat.chains[k]
    ensures var cat' := Catalog(cat.chains[dir := cat.chains[dir] + [ext]], cat.dirs);
      && Inv(v', cat') && SameNodes(v, cat, v', cat')
      && Dir(v', cat', dir) == Dir(v, cat, dir) + ClusterSlots(Zeros(v.clusterSize))
      && forall d :: d in cat.dirs && d != dir ==> Dir(v', cat', d) == Dir(v, cat, d)
  {
    var cat' := Catalog(cat.chains[dir := cat.chains[dir] + [ext]], cat.dirs);
    var blank := ClusterSlots(Zeros(v.clusterSize));
    ExtendedSlots(v, cat, dir, v', ext);
    ExtendedDirs(v, cat, dir, v', cat', blank);
    forall d, n | d in cat.dirs && PlainName(n)
      ensures Lookup(v', cat', d, n) == Lookup(v, cat, d, n)
    {
      if d == dir {
        FindSplit(Dir(v, cat, dir), blank, n);
        FindNone(blank, n);
      }
      LookupSame(v, cat, v', cat', 0, d, n);
    }
  }

  lemma ExtendedSlots(v: Volume, cat: Catalog, dir: nat, v': Volume, ext: nat)
    requires HasChains(v, cat) && dir in cat.dirs && ext < |v.data|
    requires v'.data == v.data[ext := Zeros(v.clusterSize)]
    requires forall k :: k in cat.chains ==> ext !in cat.chains[k]
    ensures var cat' := Catalog(cat.chains[dir := cat.chains[dir] + [ext]], cat.dirs);
      && HasChains(v', cat')
      && Dir(v', cat', dir) == Dir(v, cat, dir) + ClusterSlots(Zeros(v.clusterSize))
      && (forall d :: d in cat.dirs && d != dir ==> Dir(v', cat', d) == Dir(v, cat, d))
      && SameFiles(v, cat, v', cat', 0)
  {
    forall k | k in cat.chains
      ensures Slots(v'.data, cat.chains[k]) == Slots(v.data, cat.chains[k])
      ensures Content(v'.data, cat.chains[k]) == Content(v.data, cat.chains[k])
    {
      assert forall i :: 0 <= i < |cat.chains[k]| ==> cat.chains[k][i] in cat.chains[k];
      DataFrame(v.data, v'.data, cat.chains[k]);
    }
    SlotsAppend(v'.data, cat.chains[dir], [ext]);
    assert Slots(v'.data, [ext]) == ClusterSlots(Zeros(v.clusterSize));
  }

  lemma ExtendedDirs(v: Volume, cat: Catalog, dir: nat, v': Volume, cat': Catalog, blank: seq<slot>)
    requires Inv(v, cat) && dir in cat.dirs && HasChains(v', cat')
    requires cat'.dirs == cat.dirs && cat'.chains.Keys == cat.chains.Keys
    requires forall k :: k in cat.chains && k != dir ==> cat'.chains[k] == cat.chains[k]
    requires forall i :: 0 <= i < |Dir(v, cat, dir)| ==> !Vacant(Dir(v, cat, dir)[i])
    requires forall i :: 0 <= i < |blank| ==> blank[i][0] == 0
    requires Dir(v', cat', dir) == Dir(v, cat, dir) + blank
    requires forall d :: d in cat.dirs && d != dir ==> Dir(v', cat', d) == Dir(v, cat, d)
    ensures forall d :: d in cat'.dirs ==> DirOk(v.clusterSize, cat', Dir(v', cat', d))
    ensures NoAlias(v', cat')
  {
    forall d | d in cat.dirs ensures DirOk(v.clusterSize, cat', Dir(v', cat', d)) {
      assert DirOk(v.clusterSize, cat, Dir(v, cat, d));
      RefsGrow(v.clusterSize, cat, cat', Dir(v, cat, d));
      if d == dir {
        BlankTail(v.clusterSize, cat', Dir(v, cat, d), blank);
      }
    }
    forall d, d', i, i' |
      && d in cat.dirs && d' in cat.dirs
      && 0 <= i < |Dir(v', cat', d)| && 0 <= i' < |Dir(v', cat', d')|
      && FileRef(Dir(v', cat', d)[i]) && FileRef(Dir(v', cat', d')[i'])
      && FirstCluster(Dir(v', cat', d)[i]) == FirstCluster(Dir(v', cat', d')[i'])
      ensures d == d' && i == i'
    {
      assert i < |Dir(v, cat, d)| && Dir(v', cat', d)[i] == Dir(v, cat, d)[i];
      assert i' < |Dir(v, cat, d')| && Dir(v', cat', d')[i'] == Dir(v, cat, d')[i'];
    }
  }

  lemma BlankTail(clusterSize: nat, cat: Catalog, es: seq<slot>, blank: seq<slot>)
    requires DirOk(clusterSize, cat, es)
    requires forall i :: 0 <= i < |es| ==> !Vacant(es[i])
    requires forall i :: 0 <= i < |blank| ==> blank[i][0] == 0
    ensures DirOk(clusterSize, cat, es + blank)
  {
  }

  // ---- Storing an entry

  /** No file entry other than slot `i` of `dir` names first cluster `f`. */
  ghost predicate OnlyRef(v: Volume, cat: Catalog, f: nat, dir: nat, i: nat)
    requires HasChains(v, cat)
  {
    forall d, k ::
      && d in cat.dirs && 0 <= k < |Dir(v, cat, d)|
      && FileRef(Dir(v, cat, d)[k]) && FirstCluster(Dir(v, cat, d)[k]) == f
      ==> d == dir && k == i
  }

  /** The state after the chain of `f` and slot `i` of `dir` have been rewritten, and nothing else. */
  ghost predicate Stored(v: Volume, cat: Catalog, v': Volume, cat': Catalog,
                         dir: nat, i: nat, e: slot, f: nat)
    requires HasChains(v, cat)
  {
    && v'.Valid() && v'.clusterSize == v.clusterSize && HasChains(v', cat')
    && cat'.dirs == cat.dirs && cat'.chains.Keys == cat.chains.Keys + {f}
    && ChainsOk(v'.fat, cat'.chains)
    && dir in cat.dirs && f !in cat.dirs && i < |Dir(v, cat, dir)|
    && Dir(v', cat', dir) == Dir(v, cat, dir)[i := e]
    && (forall d :: d in cat.dirs && d != dir ==> Dir(v', cat', d) == Dir(v, cat, d))
    && SameFiles(v, cat, v', cat', f)
    && (forall k :: k in cat.chains && k != f && k !in cat.dirs ==> cat'.chains[k] == cat.chains[k])
  }

  predicate FileEntry(e: slot, name: seq<byte>, f: nat, size: nat) {
    && Name(e) == name && Visible(e) && !IsDot(e) && !IsDirectory(e)
    && FirstCluster(e) == f && FileSize(e) == size
  }

  lemma StoredInv(v: Volume, cat: Catalog, v': Volume, cat': Catalog,
                  dir: nat, i: nat, e: slot, f: nat, name: seq<byte>, size: nat)
    requires Inv(v, cat) && Stored(v, cat, v', cat', dir, i, e, f)
    requires Storable(Dir(v, cat, dir), i, name) && FileEntry(e, name, f, size)
    requires OnlyRef(v, cat, f, dir, i)
    requires f in cat'.chains && size <= |cat'.chains[f]| * v.clusterSize
    ensures Inv(v', cat')
  {
    forall d | d in cat'.dirs ensures DirOk(v.clusterSize, cat', Dir(v', cat', d)) {
      var es := Dir(v, cat, d);
      assert DirOk(v.clusterSize, cat, es);
      if d == dir {
        FindStored(es, i, name, e, name);
      }
      forall k | 0 <= k < |Dir(v', cat', d)| ensures RefOk(v.clusterSize, cat', Dir(v', cat', d)[k]) {
        assert RefOk(v.clusterSize, cat, es[k]);
        if !(d == dir && k == i) && FileRef(es[k]) {
          assert FirstCluster(es[k]) != f;
        }
      }
    }
    StoredNoAlias(v, cat, v', cat', dir, i, e, f);
  }

  lemma StoredNoAlias(v: Volume, cat: Catalog, v': Volume, cat': Catalog, dir: nat, i: nat, e: slot, f: nat)
    requires HasChains(v, cat) && HasChains(v', cat') && NoAlias(v, cat) && OnlyRef(v, cat, f, dir, i)
    requires cat'.dirs == cat.dirs && FirstCluster(e) == f
    requires dir in cat.dirs && i < |Dir(v, cat, dir)| && Dir(v', cat', dir) == Dir(v, cat, dir)[i := e]
    requires forall d :: d in cat.dirs && d != dir ==> Dir(v', cat', d) == Dir(v, cat, d)
    ensures NoAlias(v', cat')
  {
    forall d, d', k, k' |
      && d in cat'.dirs && d' in cat'.dirs
      && 0 <= k < |Dir(v', cat', d)| && 0 <= k' < |Dir(v', cat', d')|
      && FileRef(Dir(v', cat', d)[k]) && FileRef(Dir(v', cat', d')[k'])
      && FirstCluster(Dir(v', cat', d)[k]) == FirstCluster(Dir(v', cat', d')[k'])
      ensures d == d' && k == k'
    {
      assert Dir(v', cat', d)[k] == if d == dir && k == i then e else Dir(v, cat, d)[k];
      assert Dir(v', cat', d')[k'] == if d' == dir && k' == i then e else Dir(v, cat, d')[k'];
    }
  }

  /** The main result of a store: the named file now has the new bytes, everything else is as before. */
  lemma StoredNodes(v: Volume, cat: Catalog, v': Volume, cat': Catalog,
                    dir: nat, i: nat, e: slot, f: nat, name: seq<byte>, bytes: seq<byte>)
    requires Inv(v, cat) && Stored(v, cat, v', cat', dir, i, e, f)
    requires PlainName(name) && Storable(Dir(v, cat, dir), i, name)
    requires FileEntry(e, name, f, |bytes|) && OnlyRef(v, cat, f, dir, i)
    requires f in cat'.chains && bytes <= Content(v'.data, cat'.chains[f])
    ensures forall d, n :: d in cat.dirs && PlainName(n) ==>
      Lookup(v', cat', d, n) == if d == dir && n == name then Some(File(bytes)) else Lookup(v, cat, d, n)
  {
    forall d, n | d in cat.dirs && PlainName(n)
      ensures Lookup(v', cat', d, n) == if d == dir && n == name then Some(File(bytes)) else Lookup(v, cat, d, n)
    {
      assert DirOk(v.clusterSize, cat, Dir(v, cat, d));
      if d == dir {
        StoredHere(v, cat, v', cat', dir, i, e, f, name, bytes, n);
      } else {
        assert FoundAvoids(v, cat, f, d, n) by {
          OnlyRefAvoids(v, cat, f, dir, i, d, n);
        }
        LookupSame(v, cat, v', cat', f, d, n);
      }
    }
  }

  /** The entry a name is found in is not a file entry of `f`. */
  predicate FoundAvoids(v: Volume, cat: Catalog, f: nat, d: nat, n: seq<byte>)
    requires HasChains(v, cat) && d in cat.dirs
  {
    var r := Find(Dir(v, cat, d), n);
    r.Some? && FileRef(r.value) ==> FirstCluster(r.value) != f
  }

  lemma OnlyRefAvoids(v: Volume, cat: Catalog, f: nat, dir: nat, i: nat, d: nat, n: seq<byte>)
    requires HasChains(v, cat) && d in cat.dirs && dir in cat.dirs && OnlyRef(v, cat, f, dir, i)
    requires d != dir || (i < |Dir(v, cat, dir)| && Name(Dir(v, cat, dir)[i]) != n)
             || (i < |Dir(v, cat, dir)| && !InUse(Dir(v, cat, dir)[i]))
    ensures FoundAvoids(v, cat, f, d, n)
  {
    var es := Dir(v, cat, d);
    if Find(es, n).Some? {
      var k :| 0 <= k < |es| && es[k] == Find(es, n).value;
    }
  }

  lemma StoredHere(v: Volume, cat: Catalog, v': Volume, cat': Catalog,
                   dir: nat, i: nat, e: slot, f: nat, name: seq<byte>, bytes: seq<byte>, n: seq<byte>)
    requires HasChains(v, cat) && HasChains(v', cat') && SameFiles(v, cat, v', cat', f)
    requires dir in cat.dirs && dir in cat'.dirs && DirOk(v.clusterSize, cat, Dir(v, cat, dir))
    requires PlainName(n) && Storable(Dir(v, cat, dir), i, name)
    requires Dir(v', cat', dir) == Dir(v, cat, dir)[i := e]
    requires FileEntry(e, name, f, |bytes|) && OnlyRef(v, cat, f, dir, i)
    requires f in cat'.chains && bytes <= Content(v'.data, cat'.chains[f])
    ensures Lookup(v', cat', dir, n) == if n == name then Some(File(bytes)) else Lookup(v, cat, dir, n)
  {
    FindStored(Dir(v, cat, dir), i, name, e, n);
    if n == name {
      assert Content(v'.data, cat'.chains[f])[..|bytes|] == bytes;
    } else {
      OnlyRefAvoids(v, cat, f, dir, i, dir, n);
      LookupSame(v, cat, v', cat', f, dir, n);
    }
  }
}
