/** What the composer stores is what the boot-time reader opens and reads. */
module FatAgreement {
  import opened Bytes
  import opened FatVolume
  import opened FatNames
  import opened FatReader
  import opened FatStore
  import opened FatDevice
  import FatWriter

  /** A path as the reader is given it, without the leading slash. */
  function JoinPath(components: seq<seq<byte>>): (path: seq<byte>)
    requires components != []
  {
    if |components| == 1 then components[0] else components[0] + [SLASH] + JoinPath(components[1..])
  }

  /** The directory a list of names leads to in the file-system map. */
  ghost function Resolve(v: Volume, cat: Catalog, d: nat, names: seq<seq<byte>>): (r: Option<nat>)
    requires HasChains(v, cat) && d in cat.dirs
    ensures r.Some? ==> r.value in cat.dirs
    decreases |names|
  {
    if names == [] then Some(d)
    else match Lookup(v, cat, d, names[0])
      case Some(Directory(c)) => if c in cat.dirs then Resolve(v, cat, c, names[1..]) else None
      case _ => None
  }

  ghost predicate PathOk(components: seq<seq<byte>>) {
    && 1 <= |components| <= MAX_COMPONENTS
    && forall i :: 0 <= i < |components| ==> ReaderAccepts(components[i])
  }

  function NameList(components: seq<seq<byte>>): (names: seq<seq<byte>>)
    requires forall i :: 0 <= i < |components| ==> ReaderAccepts(components[i])
    ensures |names| == |components|
    ensures forall i :: 0 <= i < |names| ==> names[i] == ReaderName(components[i])
  {
    seq(|components|, i requires 0 <= i < |components| => ReaderName(components[i]))
  }

  lemma {:induction false} SlashIndexOf(a: seq<byte>, b: seq<byte>)
    requires SLASH !in a && (b == [] || b[0] == SLASH)
    ensures SlashIndex(a + b) == |a|
  {
    if a == [] {
      assert a + b == b;
    } else {
      SlashIndexOf(a[1..], b);
      assert (a + b)[1..] == a[1..] + b;
    }
  }

  /** An accepted component is printable and holds no slash. */
  lemma AcceptedBytes(component: seq<byte>)
    requires ReaderAccepts(component)
    ensures SLASH !in component && forall i :: 0 <= i < |component| ==> Printable(component[i])
  {
    forall i | 0 <= i < |component| ensures component[i] != SLASH && Printable(component[i]) {
      ComponentParts(component, i);
    }
  }

  /** The reader's scan of a catalogued directory is the lookup of the name in it. */
  lemma ScanIsLookup(v: Volume, cat: Catalog, d: nat, name: seq<byte>)
    requires Inv(v, cat) && d in cat.dirs
    ensures InRange(v.fat, d)
    ensures Scan(v, d, name, |v.fat| - 2) ==
      match Find(Dir(v, cat, d), name) case Some(e) => Found(e) case None => Failed(NOT_FOUND)
  {
    hide Find, Scan;
    var s := cat.chains[d];
    assert IsChain(v.fat, s) && s[0] == d;
    ChainFits(v.fat, s);
    ScanOfChain(v, s, name, |v.fat| - 2);
  }

  /** A found entry is a slot of the directory whose reference is good. */
  lemma FoundRef(v: Volume, cat: Catalog, d: nat, name: seq<byte>)
    requires Inv(v, cat) && d in cat.dirs && PlainName(name) && Find(Dir(v, cat, d), name).Some?
    ensures var e := Find(Dir(v, cat, d), name).value;
      && RefOk(v.clusterSize, cat, e) && InUse(e) && !IsDot(e)
      && (FirstCluster(e) in cat.chains ==>
            IsChain(v.fat, cat.chains[FirstCluster(e)]) && cat.chains[FirstCluster(e)][0] == FirstCluster(e))
  {
    var es := Dir(v, cat, d);
    assert DirOk(v.clusterSize, cat, es);
    var e := Find(es, name).value;
    var i :| 0 <= i < |es| && es[i] == e;
    assert RefOk(v.clusterSize, cat, es[i]);
    assert Name(e)[0] == e[0];
  }

  /** The bytes of a chain start with the file, and every read of the handle returns its part of the file. */
  ghost predicate Serves(v: Volume, first: nat, bytes: seq<byte>)
    requires v.Valid()
  {
    forall offset: nat, n: nat :: offset + n <= |bytes| ==>
      ReadSpec(v, first, |bytes|, offset, n) == Data(bytes[offset..offset + n])
  }

  lemma ChainServes(v: Volume, s: seq<nat>, bytes: seq<byte>)
    requires v.Valid() && IsChain(v.fat, s) && Within(v.data, s)
    requires |bytes| <= |s| * v.clusterSize && bytes <= Content(v.data, s)
    ensures Serves(v, s[0], bytes)
  {
    hide ReadSpec, Content;
    forall offset: nat, n: nat | offset + n <= |bytes|
      ensures ReadSpec(v, s[0], |bytes|, offset, n) == Data(bytes[offset..offset + n])
    {
      ReadOfChain(v, s, |bytes|, offset, n);
      assert Content(v.data, s)[offset..offset + n] == bytes[offset..offset + n];
    }
  }

  /** Opening a file that the map shows in the last directory of the path. */
  lemma OpenLast(v: Volume, cat: Catalog, d: nat, component: seq<byte>, depth: nat, bytes: seq<byte>)
    requires Inv(v, cat) && d in cat.dirs && InRange(v.fat, d)
    requires ReaderAccepts(component) && depth < MAX_COMPONENTS
    requires Lookup(v, cat, d, ReaderName(component)) == Some(File(bytes)) && bytes != []
    ensures var o := OpenFrom(v, d, component, depth);
      o.Handle? && o.size == |bytes| && Serves(v, o.first, bytes)
  {
    hide Inv, Scan, Serves, Find, ReaderAccepts, ChainsOk, SlashIndex, ReaderName;
    AcceptedBytes(component);
    AcceptedPlain(component);
    SlashIndexOf(component, []);
    assert component + [] == component && component[..|component|] == component;
    var name := ReaderName(component);
    InvShape(v, cat);
    ScanIsLookup(v, cat, d, name);
    FoundRef(v, cat, d, name);
    var e := Find(Dir(v, cat, d), name).value;
    var s := cat.chains[FirstCluster(e)];
    ChainCapacity(v, s);
    assert bytes == Content(v.data, s)[..FileSize(e)];
    ChainServes(v, s, bytes);
  }

  lemma AcceptedPlain(component: seq<byte>)
    requires ReaderAccepts(component)
    ensures PlainName(ReaderName(component))
  {
    NamesAgree(component);
  }

  lemma ChainCapacity(v: Volume, s: seq<nat>)
    requires v.Valid() && IsChain(v.fat, s)
    ensures Within(v.data, s) && |Content(v.data, s)| == |s| * v.clusterSize && InRange(v.fat, s[0])
  {
    assert forall i :: 0 <= i < |s| ==> InRange(v.fat, s[i]);
    ContentLength(v.data, s, v.clusterSize);
  }

  /** The reader opens every non-empty file of the map along every acceptable path, and serves its exact bytes. */
  lemma {:induction false} OpenAlong(v: Volume, cat: Catalog, d: nat, components: seq<seq<byte>>, depth: nat,
      bytes: seq<byte>)
    requires Inv(v, cat) && d in cat.dirs && InRange(v.fat, d)
    requires components != [] && depth + |components| <= MAX_COMPONENTS
    requires forall i :: 0 <= i < |components| ==> ReaderAccepts(components[i])
    requires var names := NameList(components);
      var dir := Resolve(v, cat, d, names[..|names| - 1]);
      dir.Some? && Lookup(v, cat, dir.value, names[|names| - 1]) == Some(File(bytes))
    requires bytes != []
    ensures var o := OpenFrom(v, d, JoinPath(components), depth);
      o.Handle? && o.size == |bytes| && Serves(v, o.first, bytes)
    decreases |components|
  {
    hide Inv, Serves, ReaderAccepts, Lookup, OpenFrom, ReaderName, ChainsOk, IsChain, Within;
    InvShape(v, cat);
    var names := NameList(components);
    if |components| == 1 {
      OpenLast(v, cat, d, components[0], depth, bytes);
    } else {
      var rest := components[1..];
      assert NameList(rest) == names[1..];
      assert names[..|names| - 1][1..] == names[1..][..|names| - 2];
      StepInto(v, cat, d, components[0], JoinPath(rest), depth);
      var c := Lookup(v, cat, d, names[0]).value.cluster;
      OpenAlong(v, cat, c, rest, depth + 1, bytes);
    }
  }

  /** One directory component of a path. */
  lemma StepInto(v: Volume, cat: Catalog, d: nat, component: seq<byte>, rest: seq<byte>, depth: nat)
    requires Inv(v, cat) && d in cat.dirs && InRange(v.fat, d) && ReaderAccepts(component) && depth < MAX_COMPONENTS
    requires var r := Lookup(v, cat, d, ReaderName(component));
      r.Some? && r.value.Directory? && r.value.cluster in cat.dirs
    ensures var c := Lookup(v, cat, d, ReaderName(component)).value.cluster;
      InRange(v.fat, c) && OpenFrom(v, d, component + [SLASH] + rest, depth) == OpenFrom(v, c, rest, depth + 1)
  {
    hide Inv, Scan, Find, ReaderAccepts, ChainsOk, ReaderName, FirstCluster, FileSize, IsChain, SlashIndex, Slots;
    InvShape(v, cat);
    AcceptedBytes(component);
    SlashIndexOf(component, [SLASH] + rest);
    var path := component + [SLASH] + rest;
    assert path == component + ([SLASH] + rest);
    assert path[..|component|] == component && path[|component| + 1..] == rest;
    var name := ReaderName(component);
    ScanIsLookup(v, cat, d, name);
    var c := Lookup(v, cat, d, name).value.cluster;
    DirectoryInRange(v, cat, c);
  }

  lemma DirectoryInRange(v: Volume, cat: Catalog, d: nat)
    requires Inv(v, cat) && d in cat.dirs
    ensures v.Valid() && InRange(v.fat, d)
  {
    assert IsChain(v.fat, cat.chains[d]) && InRange(v.fat, cat.chains[d][0]);
  }

  /** What opening the last component of a path yields: a file, or why not. */
  ghost predicate Answers(o: Opened, node: Option<Node>) {
    match node
    case None => o == Refused(NOT_FOUND)
    case Some(Directory(_)) => o == Refused(NOT_REGULAR)
    case Some(File(_)) => o.Handle?
  }

  lemma OpenLastExact(v: Volume, cat: Catalog, d: nat, component: seq<byte>, depth: nat)
    requires Inv(v, cat) && HasChains(v, cat) && d in cat.dirs && v.Valid() && InRange(v.fat, d)
    requires ReaderAccepts(component) && depth < MAX_COMPONENTS
    ensures Answers(OpenFrom(v, d, component, depth), Lookup(v, cat, d, ReaderName(component)))
  {
    hide Inv, Scan, Find, ReaderAccepts, ChainsOk, SlashIndex, ReaderName, IsChain, Slots, Content;
    AcceptedBytes(component);
    AcceptedPlain(component);
    SlashIndexOf(component, []);
    assert component + [] == component && component[..|component|] == component;
    var name := ReaderName(component);
    ScanIsLookup(v, cat, d, name);
    if Find(Dir(v, cat, d), name).Some? {
      FoundRef(v, cat, d, name);
      var e := Find(Dir(v, cat, d), name).value;
      if FirstCluster(e) in cat.chains {
        ChainCapacity(v, cat.chains[FirstCluster(e)]);
      }
    }
  }

  /** A component that is no directory ends the way of a longer path. */
  lemma StepRefused(v: Volume, cat: Catalog, d: nat, component: seq<byte>, rest: seq<byte>, depth: nat)
    requires Inv(v, cat) && HasChains(v, cat) && d in cat.dirs && v.Valid() && InRange(v.fat, d)
    requires ReaderAccepts(component) && depth < MAX_COMPONENTS
    requires !ShowsDirectory(v, cat, d, ReaderName(component))
    ensures OpenFrom(v, d, component + [SLASH] + rest, depth) == Refused(NOT_FOUND)
  {
    hide Inv, Scan, Find, ReaderAccepts, ChainsOk, ReaderName, FirstCluster, FileSize, IsChain, SlashIndex, Slots;
    AcceptedBytes(component);
    SlashIndexOf(component, [SLASH] + rest);
    var path := component + [SLASH] + rest;
    assert path == component + ([SLASH] + rest);
    assert path[..|component|] == component;
    ScanIsLookup(v, cat, d, ReaderName(component));
  }

  lemma ShownDirectory(v: Volume, cat: Catalog, d: nat, name: seq<byte>)
    requires Inv(v, cat) && HasChains(v, cat) && d in cat.dirs && PlainName(name) && ShowsDirectory(v, cat, d, name)
    ensures Lookup(v, cat, d, name).value.cluster in cat.dirs
  {
    hide Inv, Find;
    FoundRef(v, cat, d, name);
  }

  /** Opening along an acceptable path: found exactly when every directory on the way and the file are in the map. */
  lemma {:induction false} OpenAlongExact(v: Volume, cat: Catalog, d: nat, components: seq<seq<byte>>, depth: nat)
    requires Inv(v, cat) && HasChains(v, cat) && d in cat.dirs && v.Valid() && InRange(v.fat, d)
    requires components != [] && depth + |components| <= MAX_COMPONENTS
    requires forall i :: 0 <= i < |components| ==> ReaderAccepts(components[i])
    ensures var names := NameList(components); var n := |names| - 1;
      var dir := Resolve(v, cat, d, names[..n]);
      Answers(OpenFrom(v, d, JoinPath(components), depth),
              if dir.Some? then Lookup(v, cat, dir.value, names[n]) else None)
    decreases |components|
  {
    hide Inv, ReaderAccepts, Lookup, OpenFrom, ReaderName, ChainsOk, IsChain, Within, Answers;
    var names := NameList(components);
    if |components| == 1 {
      OpenLastExact(v, cat, d, components[0], depth);
    } else {
      var rest := components[1..];
      assert NameList(rest) == names[1..];
      assert names[..|names| - 1][1..] == names[1..][..|names| - 2];
      AcceptedPlain(components[0]);
      if ShowsDirectory(v, cat, d, names[0]) {
        ShownDirectory(v, cat, d, names[0]);
        StepInto(v, cat, d, components[0], JoinPath(rest), depth);
        OpenAlongExact(v, cat, Lookup(v, cat, d, names[0]).value.cluster, rest, depth + 1);
      } else {
        StepRefused(v, cat, d, components[0], JoinPath(rest), depth);
        NothingThere(OpenFrom(v, d, JoinPath(components), depth));
      }
    }
  }

  lemma NothingThere(o: Opened)
    requires o == Refused(NOT_FOUND)
    ensures Answers(o, None)
  {
  }

  /** Exactly which acceptable paths the reader opens, and how it refuses the others. */
  lemma OpenExact(v: Volume, cat: Catalog, root: nat, components: seq<seq<byte>>)
    requires Inv(v, cat) && HasChains(v, cat) && root in cat.dirs && PathOk(components)
    ensures v.Valid() && InRange(v.fat, root)
    ensures var names := NameList(components); var n := |names| - 1;
      var dir := Resolve(v, cat, root, names[..n]);
      Answers(OpenSpec(v, root, [SLASH] + JoinPath(components)),
              if dir.Some? then Lookup(v, cat, dir.value, names[n]) else None)
  {
    hide Inv, ReaderAccepts, Lookup, Resolve, OpenFrom, Answers;
    InvShape(v, cat);
    DirectoryInRange(v, cat, root);
    OpenAlongExact(v, cat, root, components, 0);
    JoinPathLength(components);
    assert ([SLASH] + JoinPath(components))[1..] == JoinPath(components);
  }

  /** Writer and reader agree: a stored file is opened under its path and read back exactly. */
  lemma StoredFileIsRead(v: Volume, cat: Catalog, root: nat, components: seq<seq<byte>>, bytes: seq<byte>)
    requires Inv(v, cat) && root in cat.dirs && PathOk(components) && bytes != []
    requires var names := NameList(components);
      var dir := Resolve(v, cat, root, names[..|names| - 1]);
      dir.Some? && Lookup(v, cat, dir.value, names[|names| - 1]) == Some(File(bytes))
    ensures InRange(v.fat, root)
    ensures var o := OpenSpec(v, root, [SLASH] + JoinPath(components));
      o.Handle? && o.size == |bytes| && Serves(v, o.first, bytes)
  {
    hide Inv, Serves, ReaderAccepts, Lookup, Resolve, OpenFrom;
    InvShape(v, cat);
    DirectoryInRange(v, cat, root);
    OpenAlong(v, cat, root, components, 0, bytes);
    JoinPathLength(components);
    assert ([SLASH] + JoinPath(components))[1..] == JoinPath(components);
  }

  lemma JoinPathLength(components: seq<seq<byte>>)
    requires components != [] && ReaderAccepts(components[0])
    ensures JoinPath(components) != []
  {
  }

  /** The map shows the path as a file with these bytes. */
  ghost predicate Shows(v: Volume, cat: Catalog, root: nat, components: seq<seq<byte>>, bytes: seq<byte>)
    requires HasChains(v, cat) && root in cat.dirs && PathOk(components)
  {
    var at := Place(v, cat, root, components);
    at.Some? && bytes != [] && Lookup(v, cat, at.value.0, at.value.1) == Some(File(bytes))
  }

  /** The directory and the name a path ends at. */
  ghost function Place(v: Volume, cat: Catalog, root: nat, components: seq<seq<byte>>): (at: Option<(nat, seq<byte>)>)
    requires HasChains(v, cat) && root in cat.dirs && PathOk(components)
    ensures at.Some? ==> at.value.0 in cat.dirs && PlainName(at.value.1)
  {
    var names := NameList(components);
    var n := |names| - 1;
    AcceptedPlain(components[n]);
    match Resolve(v, cat, root, names[..n])
    case Some(d) => Some((d, names[n]))
    case None => None
  }

  /** The reader opens the path and every read of it returns its part of the bytes. */
  ghost predicate Readable(v: Volume, root: nat, components: seq<seq<byte>>, bytes: seq<byte>)
    requires v.Valid() && InRange(v.fat, root) && PathOk(components)
  {
    var o := OpenSpec(v, root, [SLASH] + JoinPath(components));
    o.Handle? && o.size == |bytes| && Serves(v, o.first, bytes)
  }

  lemma ShownIsReadable(v: Volume, cat: Catalog, root: nat, components: seq<seq<byte>>, bytes: seq<byte>)
    requires Inv(v, cat) && HasChains(v, cat) && root in cat.dirs && PathOk(components)
      && Shows(v, cat, root, components, bytes)
    ensures v.Valid() && InRange(v.fat, root) && Readable(v, root, components, bytes)
  {
    hide Inv, Serves, ReaderAccepts, Lookup, Resolve, OpenFrom, OpenSpec;
    InvShape(v, cat);
    StoredFileIsRead(v, cat, root, components, bytes);
  }

  /** Where every directory of the map stays, every path of directories leads to the same place. */
  lemma {:induction false} ResolveSame(v: Volume, cat: Catalog, v': Volume, cat': Catalog, d: nat,
      names: seq<seq<byte>>)
    requires HasChains(v, cat) && HasChains(v', cat') && d in cat.dirs && cat.dirs <= cat'.dirs
    requires forall i :: 0 <= i < |names| ==> PlainName(names[i])
    requires forall x, n :: x in cat.dirs && PlainName(n) && ShowsDirectory(v, cat, x, n) ==>
      Lookup(v', cat', x, n) == Lookup(v, cat, x, n)
    requires Resolve(v, cat, d, names).Some?
    ensures Resolve(v', cat', d, names) == Resolve(v, cat, d, names)
    decreases |names|
  {
    hide Lookup;
    if names != [] {
      assert ShowsDirectory(v, cat, d, names[0]);
      var c := Lookup(v, cat, d, names[0]).value.cluster;
      ResolveSame(v, cat, v', cat', c, names[1..]);
    }
  }

  lemma PlaceSame(v: Volume, cat: Catalog, v': Volume, cat': Catalog, root: nat, components: seq<seq<byte>>)
    requires HasChains(v, cat) && HasChains(v', cat') && root in cat.dirs && cat.dirs <= cat'.dirs && PathOk(components)
    requires forall x, n :: x in cat.dirs && PlainName(n) && ShowsDirectory(v, cat, x, n) ==>
      Lookup(v', cat', x, n) == Lookup(v, cat, x, n)
    requires Place(v, cat, root, components).Some?
    ensures Place(v', cat', root, components) == Place(v, cat, root, components)
  {
    hide ShowsDirectory, Lookup, Resolve, ReaderAccepts, ReaderName;
    var names := NameList(components);
    forall i | 0 <= i < |names| ensures PlainName(names[i]) {
      AcceptedPlain(components[i]);
    }
    ResolveSame(v, cat, v', cat', root, names[..|names| - 1]);
  }

  // ---- From the flushed image to the mounted device

  /** The table as the little-endian words a flush writes. */
  function TableBytes(fat: seq<nat>): (bytes: seq<byte>)
    requires forall c :: 0 <= c < |fat| ==> fat[c] <= U32_MAX
    ensures |bytes| == 4 * |fat|
  {
    Widths();
    if fat == [] then [] else ToLe(fat[0], 4) + TableBytes(fat[1..])
  }

  lemma {:induction false} TableWord(fat: seq<nat>, c: nat)
    requires (forall i :: 0 <= i < |fat| ==> fat[i] <= U32_MAX) && c < |fat|
    ensures Le(TableBytes(fat)[4 * c..4 * c + 4]) == fat[c]
  {
    Widths();
    if c == 0 {
      assert TableBytes(fat)[0..4] == ToLe(fat[0], 4);
      LeOfToLe(fat[0], 4);
    } else {
      TableWord(fat[1..], c - 1);
      assert TableBytes(fat)[4 * c..4 * c + 4] == TableBytes(fat[1..])[4 * (c - 1)..4 * (c - 1) + 4];
    }
  }

  /** The device holds the flushed table and the data clusters of a volume. */
  ghost predicate Flushed(dev: BlockDevice, m: Mount, v: Volume, padding: seq<byte>) {
    && Mounted(dev, m) && v.Valid() && |v.fat| == m.clusterCount + 2
    && v.clusterSize == Times(m.sectorsPerCluster, dev.blockBytes)
    && (forall c :: 0 <= c < |v.fat| ==> v.fat[c] <= U32_MAX)
    && (forall c :: 0 <= c <= MaxCluster(m) ==>
          IsChunk(dev.blocks[FatBlock(m, dev.blockBytes, c)], TableBytes(v.fat) + padding, dev.blockBytes,
            Whole(4 * c, dev.blockBytes)))
    && (forall c :: 2 <= c <= MaxCluster(m) ==>
          SectorRun(dev.blocks, DataBlock(m, c), m.sectorsPerCluster) == v.data[c])
  }

  lemma WordOfChunk(block: seq<byte>, area: seq<byte>, size: nat, k: nat, within: nat)
    requires IsChunk(block, area, size, k) && within + 4 <= size
    ensures 0 <= k * size + within && k * size + within + 4 <= |area| && within + 4 <= |block|
    ensures block[within..within + 4] == area[k * size + within..k * size + within + 4]
  {
    var base := k * size;
    assert (k + 1) * size == base + size;
    assert area[base..base + size][within..within + 4] == area[base + within..base + within + 4];
  }

  lemma FlushedWord(dev: BlockDevice, m: Mount, v: Volume, padding: seq<byte>, c: nat)
    requires Flushed(dev, m, v, padding) && c <= MaxCluster(m)
    ensures FatWord(dev.blocks, dev.blockBytes, m, c) == v.fat[c]
  {
    var size := dev.blockBytes;
    var k, within := Whole(4 * c, size), Rest(4 * c, size);
    RestOfWord(c, size);
    WholeAndRest(4 * c, size);
    WordOfChunk(dev.blocks[FatBlock(m, size, c)], TableBytes(v.fat) + padding, size, k, within);
    assert (TableBytes(v.fat) + padding)[4 * c..4 * c + 4] == TableBytes(v.fat)[4 * c..4 * c + 4];
    TableWord(v.fat, c);
  }

  /** A mounted device that holds a flushed volume presents exactly that volume. */
  lemma FlushedPresents(dev: BlockDevice, m: Mount, v: Volume, padding: seq<byte>)
    requires Flushed(dev, m, v, padding)
    ensures VolumeOf(dev, m) == v
  {
    var p := VolumeOf(dev, m);
    forall c | 0 <= c < |v.fat| ensures p.fat[c] == v.fat[c] && p.data[c] == v.data[c] {
      FlushedWord(dev, m, v, padding, c);
    }
    assert p.fat == v.fat && p.data == v.data;
  }

  /** Open a path and read the whole file: a readable file arrives exactly. */
  method Load(dev: BlockDevice, m: Mount, components: seq<seq<byte>>, buffer: array<byte>, ghost bytes: seq<byte>)
    returns (status: Status, size: nat)
    requires Mounted(dev, m) && PathOk(components)
    modifies buffer
    ensures status == IO ==> !dev.reliable
    ensures Readable(VolumeOf(dev, m), m.rootCluster, components, bytes) && |bytes| <= buffer.Length && status != IO ==>
      status == OK && size == |bytes| && buffer[..size] == bytes
  {
    hide OpenSpec, Mounted, VolumeOf, ReadSpec, ReaderAccepts, JoinPath;
    size := 0;
    var path := [SLASH] + JoinPath(components);
    PathHasNoNul(components);
    var handle := Open(dev, m, path);
    if handle.Refused? {
      status := handle.status;
      return;
    }
    size := handle.size;
    if size > buffer.Length {
      status := BAD_ARGUMENT;
      return;
    }
    status := ReadFile(dev, m, handle.first, handle.size, 0, buffer, handle.size);
    if |bytes| == size {
      assert bytes[0..0 + |bytes|] == bytes;
    }
  }

  /** On a device flushed from a volume, what the map shows is readable. */
  lemma FlushedReadable(dev: BlockDevice, m: Mount, v: Volume, cat: Catalog, padding: seq<byte>,
                        components: seq<seq<byte>>, bytes: seq<byte>)
    requires Flushed(dev, m, v, padding) && Inv(v, cat) && HasChains(v, cat) && m.rootCluster in cat.dirs
    requires PathOk(components) && Shows(v, cat, m.rootCluster, components, bytes)
    ensures Mounted(dev, m) && Readable(VolumeOf(dev, m), m.rootCluster, components, bytes)
  {
    hide Inv, Shows, Readable, VolumeOf;
    FlushedPresents(dev, m, v, padding);
    ShownIsReadable(v, cat, m.rootCluster, components, bytes);
  }

  /** Where a path ends in an image. */
  ghost function PlaceIn(image: FatWriter.Fat32Image, root: nat, path: seq<seq<byte>>): (at: Option<(nat, seq<byte>)>)
    reads image, image.fat, image.data
    requires image.Sound() && root in image.catalog.dirs && PathOk(path)
  {
    Place(image.Vol(), image.catalog, root, path)
  }

  /** Put a file where a path leads: that path then shows the bytes, and every other file what it showed before. */
  method PutForReader(image: FatWriter.Fat32Image, root: nat, directory: nat, path: seq<seq<byte>>, bytes: seq<byte>,
                      ghost target: seq<seq<byte>>, ghost was: seq<byte>)
    returns (ok: bool)
    requires image.Sound() && root in image.catalog.dirs && PathOk(path) && PathOk(target)
    requires var at := PlaceIn(image, root, path); at.Some? && at.value.0 == directory
    modifies image.fat, image.data, image`catalog
    ensures image.Sound() && root in image.catalog.dirs
    ensures ok <==> old(PutFits(image.Vol(), image.catalog, directory, ReaderName(path[|path| - 1]), |bytes|))
    ensures ok && old(PlaceIn(image, root, target) == PlaceIn(image, root, path)) ==>
      Shows(image.Vol(), image.catalog, root, target, bytes)
    ensures old(Shows(image.Vol(), image.catalog, root, target, was))
            && (!ok || old(PlaceIn(image, root, target) != PlaceIn(image, root, path))) ==>
      Shows(image.Vol(), image.catalog, root, target, was)
  {
    hide Inv, ReaderAccepts, ReaderName, Lookup, Resolve;
    ghost var v, cat := image.Vol(), image.catalog;
    var component := path[|path| - 1];
    NamesAgree(component);
    ok := image.PutFile(directory, component, bytes);
    ghost var v', cat' := image.Vol(), image.catalog;
    assert forall x, n :: x in cat.dirs && PlainName(n) && ShowsDirectory(v, cat, x, n) ==>
      Lookup(v', cat', x, n) == Lookup(v, cat, x, n);
    if Place(v, cat, root, target).Some? {
      PlaceSame(v, cat, v', cat', root, target);
    }
  }

  /** Composer and boot reader together: put a file where a path leads, and load any path from a device
      flushed afterwards. The stored path loads the stored bytes, and every other file what it held before. */
  method PutThenLoad(image: FatWriter.Fat32Image, directory: nat, path: seq<seq<byte>>, bytes: seq<byte>,
                     dev: BlockDevice, m: Mount, target: seq<seq<byte>>, buffer: array<byte>,
                     ghost padding: seq<byte>, ghost was: seq<byte>)
    returns (ok: bool, status: Status, size: nat)
    requires image.Sound() && m.rootCluster in image.catalog.dirs && Mounted(dev, m) && PathOk(path) && PathOk(target)
    requires var at := PlaceIn(image, m.rootCluster, path); at.Some? && at.value.0 == directory
    modifies image.fat, image.data, image`catalog, buffer
    ensures image.Sound() && (status == IO ==> !dev.reliable)
    ensures ok <==> old(PutFits(image.Vol(), image.catalog, directory, ReaderName(path[|path| - 1]), |bytes|))
    ensures ok && old(PlaceIn(image, m.rootCluster, target) == PlaceIn(image, m.rootCluster, path))
            && Flushed(dev, m, image.Vol(), padding) && status != IO && |bytes| <= buffer.Length ==>
      status == OK && size == |bytes| && buffer[..size] == bytes
    ensures old(Shows(image.Vol(), image.catalog, m.rootCluster, target, was))
            && (!ok || old(PlaceIn(image, m.rootCluster, target) != PlaceIn(image, m.rootCluster, path)))
            && Flushed(dev, m, image.Vol(), padding) && status != IO && |was| <= buffer.Length ==>
      status == OK && size == |was| && buffer[..size] == was
  {
    hide Inv, Readable, VolumeOf, Mounted, ReaderName, Shows, Flushed, PutFits;
    ghost var same := PlaceIn(image, m.rootCluster, target) == PlaceIn(image, m.rootCluster, path);
    ok := PutForReader(image, m.rootCluster, directory, path, bytes, target, was);
    ghost var expected := if ok && same then bytes else was;
    ghost var v, cat := image.Vol(), image.catalog;
    if Flushed(dev, m, v, padding) && Shows(v, cat, m.rootCluster, target, expected) {
      FlushedReadable(dev, m, v, cat, padding, target, expected);
    }
    status, size := Load(dev, m, target, buffer, expected);
  }

  lemma {:induction false} PathHasNoNul(components: seq<seq<byte>>)
    requires components != [] && forall i :: 0 <= i < |components| ==> ReaderAccepts(components[i])
    ensures 0 !in JoinPath(components)
  {
    AcceptedBytes(components[0]);
    if |components| > 1 {
      PathHasNoNul(components[1..]);
    }
  }
}
