/** The boot-time reader's routines over a block device that may fail. */
module FatDevice {
  import opened Bytes
  import opened FatVolume
  import opened FatNames
  import opened FatReader

  /** Geometry a successful mount leaves behind. */
  datatype Mount = Mount(partitionFirst: nat, partitionBlocks: nat, fatFirst: nat, dataFirst: nat,
                         sectorsPerCluster: nat, rootCluster: nat, clusterCount: nat)

  function MaxCluster(m: Mount): nat { m.clusterCount + 1 }

  function PartitionEnd(m: Mount): nat { m.partitionFirst + m.partitionBlocks }

  /** First block of a data cluster. */
  function DataBlock(m: Mount, c: nat): nat
    requires c >= 2
  {
    m.dataFirst + Times(c - 2, m.sectorsPerCluster)
  }

  /** Block that holds the table entry of a cluster. */
  function FatBlock(m: Mount, blockBytes: nat, c: nat): nat
    requires blockBytes > 0
  {
    m.fatFirst + Whole(4 * c, blockBytes)
  }

  predicate BlockSize(b: nat) {
    b == 512 || b == 1024 || b == 2048 || b == 4096
  }

  /** Every block the reader derives from a cluster number lies inside the partition. */
  ghost predicate Geometry(blocks: seq<seq<byte>>, blockBytes: nat, m: Mount) {
    && BlockSize(blockBytes)
    && |blocks| <= U64_MAX && (forall b :: 0 <= b < |blocks| ==> |blocks[b]| == blockBytes)
    && 1 <= m.clusterCount <= 0x0FFF_FFED && m.sectorsPerCluster >= 1
    && 2 <= m.rootCluster <= MaxCluster(m)
    && PartitionEnd(m) <= |blocks|
    && m.partitionFirst <= m.fatFirst && m.partitionFirst <= m.dataFirst
    && (forall c :: 0 <= c <= MaxCluster(m) ==> FatBlock(m, blockBytes, c) < PartitionEnd(m))
    && (forall c :: 2 <= c <= MaxCluster(m) ==> DataBlock(m, c) + m.sectorsPerCluster <= PartitionEnd(m))
  }

  function SectorRun(blocks: seq<seq<byte>>, first: nat, n: nat): (bytes: seq<byte>)
    requires first + n <= |blocks|
    decreases n
  {
    if n == 0 then [] else blocks[first] + SectorRun(blocks, first + 1, n - 1)
  }

  lemma {:induction false} SectorRunLength(blocks: seq<seq<byte>>, blockBytes: nat, first: nat, n: nat)
    requires first + n <= |blocks| && forall b :: 0 <= b < |blocks| ==> |blocks[b]| == blockBytes
    ensures |SectorRun(blocks, first, n)| == Times(n, blockBytes)
    decreases n
  {
    if n > 0 {
      SectorRunLength(blocks, blockBytes, first + 1, n - 1);
    }
  }

  lemma RestOfWord(c: nat, blockBytes: nat)
    requires BlockSize(blockBytes)
    ensures Rest(4 * c, blockBytes) + 4 <= blockBytes
  {
    WholeIsDivision(4 * c, blockBytes);
  }

  /** The table word of a cluster as it stands on the device. */
  ghost function FatWord(blocks: seq<seq<byte>>, blockBytes: nat, m: Mount, c: nat): (w: nat)
    requires Geometry(blocks, blockBytes, m) && c <= MaxCluster(m)
  {
    RestOfWord(c, blockBytes);
    var within := Rest(4 * c, blockBytes);
    Le(blocks[FatBlock(m, blockBytes, c)][within..within + 4])
  }

  ghost function ClusterOnDisk(blocks: seq<seq<byte>>, blockBytes: nat, m: Mount, c: nat): (bytes: seq<byte>)
    requires Geometry(blocks, blockBytes, m) && 2 <= c <= MaxCluster(m)
    ensures |bytes| == Times(m.sectorsPerCluster, blockBytes)
  {
    SectorRunLength(blocks, blockBytes, DataBlock(m, c), m.sectorsPerCluster);
    SectorRun(blocks, DataBlock(m, c), m.sectorsPerCluster)
  }

  /** The volume a mounted device presents. */
  ghost function Presented(blocks: seq<seq<byte>>, blockBytes: nat, m: Mount): (v: Volume)
    requires Geometry(blocks, blockBytes, m)
  {
    Volume(Times(m.sectorsPerCluster, blockBytes),
           seq(m.clusterCount + 2, c requires 0 <= c < m.clusterCount + 2 => FatWord(blocks, blockBytes, m, c)),
           seq(m.clusterCount + 2, c requires 0 <= c < m.clusterCount + 2 =>
             if c < 2 then [] else ClusterOnDisk(blocks, blockBytes, m, c)))
  }

  lemma {:induction false} TimesMultiple(n: nat, b: nat)
    requires BlockSize(b) && n >= 1
    ensures Times(n, b) % 32 == 0 && Times(n, b) >= 512
  {
    if n > 1 {
      TimesMultiple(n - 1, b);
    } else {
      assert Times(0, b) == 0;
    }
  }

  lemma PresentedValid(blocks: seq<seq<byte>>, blockBytes: nat, m: Mount)
    requires Geometry(blocks, blockBytes, m)
    ensures Presented(blocks, blockBytes, m).Valid()
    ensures InRange(Presented(blocks, blockBytes, m).fat, m.rootCluster)
  {
    TimesMultiple(m.sectorsPerCluster, blockBytes);
  }

  class BlockDevice {
    const blockBytes: nat
    const blocks: seq<seq<byte>>
    /** Whether every read of a block succeeds. */
    const reliable: bool

    constructor (blockBytes: nat, blocks: seq<seq<byte>>, reliable: bool)
      ensures this.blockBytes == blockBytes && this.blocks == blocks && this.reliable == reliable
    {
      this.blockBytes := blockBytes;
      this.blocks := blocks;
      this.reliable := reliable;
    }

    /** The provider's exact read of one block, or an I/O failure. */
    method Read(block: nat) returns (r: Option<seq<byte>>)
      requires block < |blocks|
      ensures r.Some? ==> r.value == blocks[block]
      ensures reliable ==> r.Some?
    {
      if !reliable {
        var fails: bool := *;
        if fails {
          return None;
        }
      }
      return Some(blocks[block]);
    }
  }

  ghost predicate Mounted(dev: BlockDevice, m: Mount) {
    Geometry(dev.blocks, dev.blockBytes, m)
  }

  ghost function VolumeOf(dev: BlockDevice, m: Mount): (v: Volume)
    requires Mounted(dev, m)
    ensures v.Valid() && |v.fat| == m.clusterCount + 2 && v.clusterSize == Times(m.sectorsPerCluster, dev.blockBytes)
    ensures InRange(v.fat, m.rootCluster)
  {
    PresentedValid(dev.blocks, dev.blockBytes, m);
    Presented(dev.blocks, dev.blockBytes, m)
  }

  /** Read one block of the partition. */
  method ReadSector(dev: BlockDevice, m: Mount, block: nat) returns (status: Status, bytes: seq<byte>)
    requires PartitionEnd(m) <= |dev.blocks|
    ensures m.partitionFirst <= block < PartitionEnd(m) <==> status != OUT_OF_RANGE
    ensures status in {OK, IO, OUT_OF_RANGE} && (status == IO ==> !dev.reliable)
    ensures status == OK ==> block < |dev.blocks| && bytes == dev.blocks[block]
  {
    if block < m.partitionFirst || block - m.partitionFirst >= m.partitionBlocks {
      return OUT_OF_RANGE, [];
    }
    var r := dev.Read(block);
    if r.None? {
      return IO, [];
    }
    return OK, r.value;
  }

  /** First block of a cluster; on a mounted volume this fails exactly for numbers that are no data cluster. */
  method ClusterFirstBlock(dev: BlockDevice, m: Mount, cluster: nat) returns (r: Option<nat>)
    requires Mounted(dev, m)
    ensures r.Some? <==> 2 <= cluster <= MaxCluster(m)
    ensures r.Some? ==> r.value == DataBlock(m, cluster)
  {
    if cluster < 2 || cluster > MaxCluster(m) || cluster - 2 > U64_MAX / m.sectorsPerCluster {
      if 2 <= cluster <= MaxCluster(m) {
        SmallProduct(cluster - 2, m.sectorsPerCluster, DataBlock(m, cluster));
      }
      return None;
    }
    var relative := (cluster - 2) * m.sectorsPerCluster;
    TimesIsProduct(cluster - 2, m.sectorsPerCluster);
    assert DataBlock(m, cluster) == m.dataFirst + relative;
    if relative > U64_MAX - m.dataFirst || m.dataFirst + relative > PartitionEnd(m)
       || m.sectorsPerCluster > PartitionEnd(m) - (m.dataFirst + relative) {
      return None;
    }
    return Some(m.dataFirst + relative);
  }

  /** A product inside the device cannot trip the multiplication guard. */
  lemma SmallProduct(a: nat, b: nat, top: nat)
    requires b > 0 && Times(a, b) <= top <= U64_MAX
    ensures a <= U64_MAX / b
  {
    TimesIsProduct(a, b);
    var q := U64_MAX / b;
    assert U64_MAX == q * b + U64_MAX % b;
    if a > q {
      MulLe(q + 1, a, b);
    }
  }

  /** Follow one table entry. */
  method NextCluster(dev: BlockDevice, m: Mount, cluster: nat) returns (status: Status, next: nat, endOfChain: bool)
    requires Mounted(dev, m)
    ensures status == IO ==> !dev.reliable
    ensures !InRange(VolumeOf(dev, m).fat, cluster) ==> status == CORRUPT_CHAIN
    ensures InRange(VolumeOf(dev, m).fat, cluster) && status != IO ==>
      match LinkOf(VolumeOf(dev, m).fat, cluster)
      case End => status == OK && endOfChain
      case To(n) => status == OK && !endOfChain && next == n
      case Broken => status == CORRUPT_CHAIN
  {
    next, endOfChain := 0, false;
    if cluster < 2 || cluster > MaxCluster(m) {
      status := CORRUPT_CHAIN;
      return;
    }
    var offset := cluster * 4;
    WholeIsDivision(4 * cluster, dev.blockBytes);
    RestOfWord(cluster, dev.blockBytes);
    var sector := m.fatFirst + offset / dev.blockBytes;
    var within := offset % dev.blockBytes;
    assert sector == FatBlock(m, dev.blockBytes, cluster);
    if within > dev.blockBytes - 4 {
      status := CORRUPT_CHAIN;
      return;
    }
    var bytes;
    status, bytes := ReadSector(dev, m, sector);
    if status != OK {
      return;
    }
    next := Le(bytes[within..within + 4]) % ENTRY_SPAN;
    assert next == Entry(VolumeOf(dev, m).fat, cluster);
    endOfChain := next >= EOC_MIN;
    if !endOfChain && (next < 2 || next > MaxCluster(m) || next == BAD_CLUSTER) {
      status := CORRUPT_CHAIN;
    }
  }

  // ---- Directories

  lemma {:induction false} ScanJoin(a: seq<slot>, b: seq<slot>, name: seq<byte>)
    ensures ScanSlots(a + b, name) == if ScanSlots(a, name).Miss? then ScanSlots(b, name) else ScanSlots(a, name)
  {
    if a == [] {
      assert a + b == b;
    } else {
      ScanJoin(a[1..], b, name);
      assert (a + b)[1..] == a[1..] + b;
    }
  }

  lemma ClusterSlotsJoin(a: seq<byte>, b: seq<byte>)
    requires |a| % 32 == 0
    ensures ClusterSlots(a + b) == ClusterSlots(a) + ClusterSlots(b)
  {
    var es := ClusterSlots(a + b);
    var n := |a| / 32;
    forall j | 0 <= j < |es| ensures es[j] == (ClusterSlots(a) + ClusterSlots(b))[j] {
      assert es[j] == (a + b)[32 * j..32 * j + 32];
      if j < n {
        assert (a + b)[32 * j..32 * j + 32] == a[32 * j..32 * j + 32];
      } else {
        assert (a + b)[32 * j..32 * j + 32] == b[32 * (j - n)..32 * (j - n) + 32];
      }
    }
  }

  /** Scan the entries of one block. */
  method ScanSector(bytes: seq<byte>, wanted: seq<byte>) returns (r: SlotScan)
    requires |wanted| == 11
    ensures r == ScanSlots(ClusterSlots(bytes), wanted)
  {
    ghost var es := ClusterSlots(bytes);
    var offset := 0;
    ghost var j := 0;
    assert es[0..] == es;
    while offset + 32 <= |bytes|
      invariant offset == 32 * j && 0 <= j <= |es|
      invariant ScanSlots(es, wanted) == ScanSlots(es[j..], wanted)
      decreases |bytes| - offset
    {
      var entry: slot := bytes[offset..offset + 32];
      assert es[j] == entry && es[j..][1..] == es[j + 1..];
      if entry[0] == 0 {
        return EndMark;
      }
      if !(entry[0] == 0xE5 || entry[11] == 0x0F || entry[11] / 8 % 2 == 1) {
        if entry[..11] == wanted {
          return Hit(entry);
        }
      }
      offset := offset + 32;
      j := j + 1;
    }
    return Miss;
  }

  /** Scan one cluster block by block. */
  method ScanCluster(dev: BlockDevice, m: Mount, cluster: nat, first: nat, wanted: seq<byte>)
    returns (status: Status, r: SlotScan)
    requires Mounted(dev, m) && InRange(VolumeOf(dev, m).fat, cluster) && first == DataBlock(m, cluster)
      && |wanted| == 11
    ensures status in {OK, IO} && (status == IO ==> !dev.reliable)
    ensures status == OK ==> r == ScanSlots(ClusterSlots(VolumeOf(dev, m).data[cluster]), wanted)
  {
    hide ClusterSlots, ScanSlots;
    r := Miss;
    ghost var all := VolumeOf(dev, m).data[cluster];
    assert all == SectorRun(dev.blocks, first, m.sectorsPerCluster);
    DataBlockInside(dev, m, cluster);
    for s := 0 to m.sectorsPerCluster
      invariant r == Miss
      invariant ScanSlots(ClusterSlots(all), wanted) ==
        ScanSlots(ClusterSlots(SectorRun(dev.blocks, first + s, m.sectorsPerCluster - s)), wanted)
    {
      var bytes;
      status, bytes := ReadSector(dev, m, first + s);
      if status != OK {
        return;
      }
      ghost var rest := SectorRun(dev.blocks, first + s + 1, m.sectorsPerCluster - s - 1);
      ClusterSlotsJoin(bytes, rest);
      ScanJoin(ClusterSlots(bytes), ClusterSlots(rest), wanted);
      r := ScanSector(bytes, wanted);
      if !r.Miss? {
        return;
      }
    }
    NothingScanned(wanted);
    status := OK;
  }

  lemma NothingScanned(wanted: seq<byte>)
    ensures ScanSlots(ClusterSlots([]), wanted) == Miss
  {
    assert ClusterSlots([]) == [];
  }

  lemma DataBlockInside(dev: BlockDevice, m: Mount, cluster: nat)
    requires Mounted(dev, m) && 2 <= cluster <= MaxCluster(m)
    ensures m.partitionFirst <= DataBlock(m, cluster)
    ensures DataBlock(m, cluster) + m.sectorsPerCluster <= PartitionEnd(m) <= |dev.blocks|
  {
  }

  /** Bounded search of a directory chain for one 8.3 name. */
  method FindDirectoryEntry(dev: BlockDevice, m: Mount, firstCluster: nat, wanted: seq<byte>)
    returns (status: Status, entry: slot)
    requires Mounted(dev, m) && InRange(VolumeOf(dev, m).fat, firstCluster) && |wanted| == 11
    ensures status == IO ==> !dev.reliable
    ensures status != IO ==>
      match Scan(VolumeOf(dev, m), firstCluster, wanted, m.clusterCount)
      case Found(e) => status == OK && entry == e
      case Failed(s) => status == s
  {
    hide Mounted, VolumeOf, ScanSlots;
    entry := Zeros(32);
    ghost var v := VolumeOf(dev, m);
    var cluster := firstCluster;
    for steps := 0 to m.clusterCount
      invariant InRange(v.fat, cluster)
      invariant Scan(v, firstCluster, wanted, m.clusterCount) == Scan(v, cluster, wanted, m.clusterCount - steps)
    {
      var block := ClusterFirstBlock(dev, m, cluster);
      if block.None? {
        status := CORRUPT_CHAIN;
        return;
      }
      var scan;
      status, scan := ScanCluster(dev, m, cluster, block.value, wanted);
      if status != OK {
        return;
      }
      match scan {
        case Hit(e) =>
          entry := e;
          return;
        case EndMark =>
          status := NOT_FOUND;
          return;
        case Miss =>
      }
      var next, endOfChain;
      status, next, endOfChain := NextCluster(dev, m, cluster);
      if status != OK {
        return;
      }
      if endOfChain {
        status := NOT_FOUND;
        return;
      }
      cluster := next;
    }
    status := CHAIN_CYCLE;
  }

  // ---- Files

  /** Copy part of a block into the caller's buffer. */
  method CopyBytes(buffer: array<byte>, at: nat, source: seq<byte>, from: nat, take: nat)
    requires at + take <= buffer.Length && from + take <= |source|
    modifies buffer
    ensures buffer[..] == old(buffer[..at]) + source[from..from + take] + old(buffer[at + take..])
  {
    for i := 0 to take
      invariant forall k :: 0 <= k < buffer.Length ==>
        buffer[k] == if at <= k < at + i then source[from + (k - at)] else old(buffer[k])
    {
      buffer[at + i] := source[from + i];
    }
    Pasted(old(buffer[..]), buffer[..], at, source[from..from + take]);
  }

  lemma Pasted(before: seq<byte>, after: seq<byte>, at: nat, piece: seq<byte>)
    requires |after| == |before| && at + |piece| <= |before|
    requires forall k :: 0 <= k < |after| ==> after[k] == if at <= k < at + |piece| then piece[k - at] else before[k]
    ensures after == before[..at] + piece + before[at + |piece|..]
  {
  }

  function Min(a: nat, b: nat): nat { if a <= b then a else b }

  /** What one block contributes to a copy that has got as far as `written`. */
  lemma BlockContribution(all: seq<byte>, done: seq<byte>, block: seq<byte>, rest: seq<byte>,
                          from: nat, copied: nat, remaining: nat, take: nat)
    requires all == done + (block + rest)
    requires from + copied == |done| + remaining && remaining + take <= |block|
    ensures all[from..from + copied] + block[remaining..remaining + take] == all[from..from + copied + take]
  {
  }

  /** Copy from one cluster, block by block, until the cluster or the request is exhausted. */
  method CopyCluster(dev: BlockDevice, m: Mount, cluster: nat, first: nat, buffer: array<byte>, start: nat, n: nat,
      from: nat)
    returns (status: Status, written: nat)
    requires Mounted(dev, m) && InRange(VolumeOf(dev, m).fat, cluster) && first == DataBlock(m, cluster)
    requires start < n <= buffer.Length && from < VolumeOf(dev, m).clusterSize
    modifies buffer
    ensures status in {OK, IO} && (status == IO ==> !dev.reliable)
    ensures buffer[..start] == old(buffer[..start]) && buffer[n..] == old(buffer[n..])
    ensures status == OK ==> written == Min(n, start + VolumeOf(dev, m).clusterSize - from)
    ensures status == OK ==> buffer[start..written] == VolumeOf(dev, m).data[cluster][from..from + written - start]
  {
    ghost var all := VolumeOf(dev, m).data[cluster];
    ghost var done: seq<byte> := [];
    assert all == SectorRun(dev.blocks, first, m.sectorsPerCluster);
    DataBlockInside(dev, m, cluster);
    hide VolumeOf, Mounted, Geometry, Times;
    status, written := OK, start;
    var remaining: nat := from;
    var s := 0;
    while s < m.sectorsPerCluster && written < n
      invariant 0 <= s <= m.sectorsPerCluster && start <= written <= n && status == OK
      invariant all == done + SectorRun(dev.blocks, first + s, m.sectorsPerCluster - s)
      invariant from + written - start <= |all|
      invariant written < n ==> from + written - start == |done| + remaining
      invariant buffer[start..written] == all[from..from + written - start]
      invariant buffer[..start] == old(buffer[..start]) && buffer[n..] == old(buffer[n..])
    {
      var bytes;
      status, bytes := ReadSector(dev, m, first + s);
      if status != OK {
        return;
      }
      ghost var rest := SectorRun(dev.blocks, first + s + 1, m.sectorsPerCluster - s - 1);
      Shift(done, bytes, rest);
      if remaining >= |bytes| {
        remaining := remaining - |bytes|;
      } else {
        written := CopyBlock(buffer, start, written, n, bytes, remaining, all, done, rest, from);
        remaining := 0;
      }
      done := done + bytes;
      s := s + 1;
    }
  }

  lemma Shift(a: seq<byte>, b: seq<byte>, c: seq<byte>)
    ensures a + (b + c) == (a + b) + c
  {
  }

  /** Copy what a request still needs of one block. */
  method CopyBlock(buffer: array<byte>, start: nat, at: nat, n: nat, bytes: seq<byte>, remaining: nat,
                   ghost all: seq<byte>, ghost done: seq<byte>, ghost rest: seq<byte>, ghost from: nat)
    returns (written: nat)
    requires start <= at < n <= buffer.Length && remaining < |bytes|
    requires all == done + (bytes + rest) && from + at - start == |done| + remaining
    requires buffer[start..at] == all[from..from + at - start]
    modifies buffer
    ensures written == Min(n, at + |bytes| - remaining) && from + written - start <= |all|
    ensures buffer[start..written] == all[from..from + written - start]
    ensures buffer[..start] == old(buffer[..start]) && buffer[n..] == old(buffer[n..])
  {
    var take := Min(n - at, |bytes| - remaining);
    BlockContribution(all, done, bytes, rest, from, at - start, remaining, take);
    CopyBytes(buffer, at, bytes, remaining, take);
    Spliced(old(buffer[..]), buffer[..], start, at, n, bytes[remaining..remaining + take]);
    written := at + take;
  }

  lemma Spliced(before: seq<byte>, after: seq<byte>, start: nat, at: nat, n: nat, piece: seq<byte>)
    requires start <= at && at + |piece| <= n <= |before|
    requires after == before[..at] + piece + before[at + |piece|..]
    ensures |after| == |before| && after[start..at + |piece|] == before[start..at] + piece
    ensures after[..start] == before[..start] && after[n..] == before[n..]
  {
  }

  /** Skip whole clusters; the result is the cluster the walk from `first` reaches. */
  method SkipClusters(dev: BlockDevice, m: Mount, first: nat, skip: nat) returns (status: Status, cluster: nat)
    requires Mounted(dev, m) && InRange(VolumeOf(dev, m).fat, first)
    ensures status in {OK, IO, CORRUPT_CHAIN} && (status == IO ==> !dev.reliable)
    ensures status == OK ==>
      Walk(VolumeOf(dev, m).fat, first, skip + 1).Some?
        && cluster == Walk(VolumeOf(dev, m).fat, first, skip + 1).value[skip]
    ensures status == CORRUPT_CHAIN ==> Walk(VolumeOf(dev, m).fat, first, skip + 1).None?
  {
    hide VolumeOf, Mounted;
    ghost var fat := VolumeOf(dev, m).fat;
    status, cluster := OK, first;
    for skipped := 0 to skip
      invariant status == OK && InRange(fat, cluster)
      invariant Walk(fat, first, skipped + 1).Some? && cluster == Walk(fat, first, skipped + 1).value[skipped]
    {
      var next, endOfChain;
      status, next, endOfChain := NextCluster(dev, m, cluster);
      WalkJoin(fat, first, skipped + 1, 2);
      WalkStops(fat, first, skipped + 2, skip + 1);
      if status != OK {
        return;
      }
      if endOfChain {
        status := CORRUPT_CHAIN;
        return;
      }
      cluster := next;
    }
  }

  lemma WalkStops(fat: seq<nat>, c: nat, n: nat, k: nat)
    requires InRange(fat, c) && n <= k
    ensures Walk(fat, c, n).None? ==> Walk(fat, c, k).None?
  {
    if Walk(fat, c, k).Some? {
      WalkPrefix(fat, c, k, n);
    }
  }

  /** What a finished prefix and a remaining outcome make together. */
  function After(prefix: seq<byte>, o: ReadOutcome): ReadOutcome {
    match o case Data(bytes) => Data(prefix + bytes) case Fault(status) => Fault(status)
  }

  /** Copy a byte range of a file into the caller's buffer, or report why not. */
  method ReadFile(dev: BlockDevice, m: Mount, first: nat, size: nat, offset: nat, buffer: array<byte>, n: nat)
    returns (status: Status)
    requires Mounted(dev, m) && n <= buffer.Length
    modifies buffer
    ensures status == IO ==> !dev.reliable
    ensures status != IO ==>
      match ReadSpec(VolumeOf(dev, m), first, size, offset, n)
      case Data(bytes) => status == OK && buffer[..n] == bytes
      case Fault(s) => status == s
    ensures buffer[n..] == old(buffer[n..])
  {
    hide VolumeOf, Mounted, Walk, ReadFrom, Whole, Rest, Times;
    if offset > size || n > size - offset {
      return BAD_ARGUMENT;
    }
    if n == 0 {
      return OK;
    }
    var clusterBytes := m.sectorsPerCluster * dev.blockBytes;
    TimesIsProduct(m.sectorsPerCluster, dev.blockBytes);
    if clusterBytes == 0 || first < 2 || first > MaxCluster(m) {
      return CORRUPT_CHAIN;
    }
    WholeIsDivision(offset, clusterBytes);
    var cluster;
    status, cluster := SkipClusters(dev, m, first, offset / clusterBytes);
    if status != OK {
      return;
    }
    status := ReadChain(dev, m, cluster, offset % clusterBytes, buffer, n);
  }

  /** The copying half of `ReadFile`: at most one pass per table entry. */
  method ReadChain(dev: BlockDevice, m: Mount, start: nat, within: nat, buffer: array<byte>, n: nat)
      returns (status: Status)
    requires Mounted(dev, m) && InRange(VolumeOf(dev, m).fat, start) && within < VolumeOf(dev, m).clusterSize
    requires 0 < n <= buffer.Length
    modifies buffer
    ensures status == IO ==> !dev.reliable
    ensures status != IO ==>
      match ReadFrom(VolumeOf(dev, m), start, within, n, m.clusterCount)
      case Data(bytes) => status == OK && buffer[..n] == bytes
      case Fault(s) => status == s
    ensures buffer[n..] == old(buffer[n..])
  {
    hide Mounted, VolumeOf, ReadFrom, After, Times;
    ghost var v := VolumeOf(dev, m);
    var cluster, remaining, written := start, within, 0;
    AfterNothing(buffer[..0], ReadFrom(v, start, within, n, m.clusterCount));
    for steps := 0 to m.clusterCount
      invariant InRange(v.fat, cluster) && 0 <= remaining < v.clusterSize && 0 <= written < n
      invariant ReadFrom(v, start, within, n, m.clusterCount) ==
        After(buffer[..written], ReadFrom(v, cluster, remaining, n - written, m.clusterCount - steps))
      invariant buffer[n..] == old(buffer[n..])
    {
      var block := ClusterFirstBlock(dev, m, cluster);
      if block.None? {
        return CORRUPT_CHAIN;
      }
      ghost var before, w := buffer[..written], written;
      ReadFromOnce(v, cluster, remaining, n - written, m.clusterCount - steps, before);
      status, written := CopyCluster(dev, m, cluster, block.value, buffer, written, n, remaining);
      if status != OK {
        return;
      }
      Extended(before, buffer[..written], v.data[cluster][remaining..remaining + written - w]);
      if written == n {
        return OK;
      }
      assert v.data[cluster][remaining..remaining + written - w] == v.data[cluster][remaining..];
      var next, endOfChain;
      status, next, endOfChain := NextCluster(dev, m, cluster);
      if status != OK {
        return;
      }
      if endOfChain {
        return CORRUPT_CHAIN;
      }
      cluster, remaining := next, 0;
    }
    ReadFromOnce(v, cluster, remaining, n - written, 0, buffer[..written]);
    return CHAIN_CYCLE;
  }

  lemma AfterNothing(empty: seq<byte>, o: ReadOutcome)
    requires empty == []
    ensures After(empty, o) == o
  {
    assert o.Data? ==> [] + o.bytes == o.bytes;
  }

  lemma Extended(before: seq<byte>, after: seq<byte>, piece: seq<byte>)
    requires |after| == |before| + |piece| && after[..|before|] == before && after[|before|..] == piece
    ensures after == before + piece
  {
  }

  /** What is left to read behind a finished prefix, one cluster later. */
  lemma ReadFromOnce(v: Volume, c: nat, r: nat, n: nat, fuel: nat, before: seq<byte>)
    requires v.Valid() && InRange(v.fat, c) && r < v.clusterSize && n > 0
    ensures |v.data[c]| == v.clusterSize
    ensures fuel == 0 ==> After(before, ReadFrom(v, c, r, n, fuel)) == Fault(CHAIN_CYCLE)
    ensures fuel > 0 && n <= v.clusterSize - r ==>
      After(before, ReadFrom(v, c, r, n, fuel)) == Data(before + v.data[c][r..r + n])
    ensures fuel > 0 && n > v.clusterSize - r && !LinkOf(v.fat, c).To? ==>
      After(before, ReadFrom(v, c, r, n, fuel)) == Fault(CORRUPT_CHAIN)
    ensures fuel > 0 && n > v.clusterSize - r && LinkOf(v.fat, c).To? ==>
      After(before, ReadFrom(v, c, r, n, fuel)) ==
        After(before + v.data[c][r..], ReadFrom(v, LinkOf(v.fat, c).next, 0, n - (v.clusterSize - r), fuel - 1))
  {
    if fuel > 0 && n > v.clusterSize - r && LinkOf(v.fat, c).To? {
      var o := ReadFrom(v, LinkOf(v.fat, c).next, 0, n - (v.clusterSize - r), fuel - 1);
      if o.Data? {
        assert before + (v.data[c][r..] + o.bytes) == (before + v.data[c][r..]) + o.bytes;
      }
    }
  }

  // ---- Names and paths

  /** Position of the only dot, the length if there is none, or nothing if there are two. */
  method FindDot(component: seq<byte>) returns (r: Option<nat>)
    ensures r.Some? ==> r.value == DotIndex(component) && DOT !in Extension(component)
    ensures r.None? ==> DOT in Extension(component)
  {
    var dot: nat := |component|;
    for i := 0 to |component|
      invariant dot == |component| || (dot < i && component[dot] == DOT)
      invariant forall k :: 0 <= k < i && k != dot ==> component[k] != DOT
    {
      if component[i] == DOT {
        if dot != |component| {
          assert DotIndex(component) == dot;
          assert Extension(component)[i - dot - 1] == DOT;
          return None;
        }
        dot := i;
      }
    }
    return Some(dot);
  }

  /** Upper-case padded 8.3 form of a component, if the reader accepts it. */
  method MakeShortName(component: seq<byte>) returns (r: Option<seq<byte>>)
    ensures r == if ReaderAccepts(component) then Some(ReaderName(component)) else None
  {
    if |component| == 0 || |component| > MAX_COMPONENT_BYTES {
      return None;
    }
    var found := FindDot(component);
    if found.None? {
      return None;
    }
    var dot := found.value;
    var extensionBytes := if dot != |component| then |component| - dot - 1 else 0;
    if dot == 0 || dot > 8 || extensionBytes > 3 {
      return None;
    }
    r := FillName(component, dot);
  }

  /** The fixed-width buffer of a name after the first `i` bytes of the component. */
  ghost predicate NameSoFar(out: seq<byte>, component: seq<byte>, dot: nat, i: nat) {
    && |out| == 11 && i <= |component| && dot <= |component|
    && (forall k :: 0 <= k < 8 ==> out[k] == if k < i && k < dot then Upper(component[k]) else SPACE)
    && (forall k :: 8 <= k < 11 ==> out[k] == if dot + k - 7 < i then Upper(component[dot + k - 7]) else SPACE)
  }

  lemma NameComplete(out: seq<byte>, component: seq<byte>, dot: nat)
    requires NameSoFar(out, component, dot, |component|) && dot == DotIndex(component) && ReaderAccepts(component)
    ensures out == ReaderName(component)
  {
    var name := ReaderName(component);
    forall k | 0 <= k < 11 ensures out[k] == name[k] {
      if k >= 8 && dot + k - 7 < |component| {
        assert Extension(component)[k - 8] == component[dot + k - 7];
      }
    }
  }

  method FillName(component: seq<byte>, dot: nat) returns (r: Option<seq<byte>>)
    requires dot == DotIndex(component) && DOT !in Extension(component)
    requires 1 <= |component| <= MAX_COMPONENT_BYTES && 1 <= dot <= 8 && |Extension(component)| <= 3
    ensures r == if ReaderAccepts(component) then Some(ReaderName(component)) else None
  {
    hide NameSoFar, ReaderByte, ReaderAccepts;
    var out := new byte[11](_ => SPACE);
    NameStart(out[..], component, dot);
    for i := 0 to |component|
      invariant NameSoFar(out[..], component, dot, i)
      invariant forall k :: 0 <= k < i && k != dot ==> ReaderByte(Upper(component[k]))
    {
      NameStep(out[..], component, dot, i);
      if i != dot {
        var byte := component[i];
        if 0x61 <= byte <= 0x7A {
          byte := byte - 0x20;
        }
        if !ReaderByte(byte) {
          RejectedByte(component, i);
          return None;
        }
        var destination := if dot == |component| || i < dot then i else 8 + i - dot - 1;
        out[destination] := byte;
      }
    }
    AcceptedComponent(component);
    NameComplete(out[..], component, dot);
    return Some(out[..]);
  }

  lemma NameStart(out: seq<byte>, component: seq<byte>, dot: nat)
    requires |out| == 11 && (forall k :: 0 <= k < 11 ==> out[k] == SPACE) && dot <= |component|
    ensures NameSoFar(out, component, dot, 0)
  {
  }

  lemma NameStep(out: seq<byte>, component: seq<byte>, dot: nat, i: nat)
    requires NameSoFar(out, component, dot, i) && i < |component|
    requires 1 <= dot <= 8 && (dot < |component| ==> |component| - dot - 1 <= 3)
    ensures i == dot ==> NameSoFar(out, component, dot, i + 1)
    ensures i != dot ==>
      var destination := if dot == |component| || i < dot then i else 8 + i - dot - 1;
      0 <= destination < 11 && |out| == 11 && NameSoFar(out[destination := Upper(component[i])], component, dot, i + 1)
  {
  }

  lemma RejectedByte(component: seq<byte>, i: nat)
    requires i < |component| && i != DotIndex(component) && !ReaderByte(Upper(component[i]))
    ensures !ReaderAccepts(component)
  {
    ComponentParts(component, i);
  }

  lemma AcceptedComponent(component: seq<byte>)
    requires 1 <= |component| <= MAX_COMPONENT_BYTES && DOT !in Extension(component)
    requires 1 <= DotIndex(component) <= 8 && |Extension(component)| <= 3
    requires forall k :: 0 <= k < |component| && k != DotIndex(component) ==> ReaderByte(Upper(component[k]))
    ensures ReaderAccepts(component)
  {
    var d := DotIndex(component);
    forall k | 0 <= k < |Extension(component)| ensures ReaderByte(Upper(Extension(component)[k])) {
      assert Extension(component)[k] == component[d + 1 + k];
    }
  }

  /** Advance to the end of a component; nothing if a byte of it is not printable. */
  method ComponentEnd(path: seq<byte>, start: nat) returns (r: Option<nat>)
    requires start <= |path|
    ensures r.Some? ==>
      && start <= r.value <= |path| && (r.value == |path| || path[r.value] == SLASH)
      && forall k :: start <= k < r.value ==> path[k] != SLASH && Printable(path[k])
    ensures r.None? ==> forall depth :: !ComponentOk(path[start..][..SlashIndex(path[start..])], depth)
  {
    var index := start;
    while index < |path| && path[index] != SLASH
      invariant start <= index <= |path|
      invariant forall k :: start <= k < index ==> path[k] != SLASH && Printable(path[k])
    {
      if path[index] < 0x21 || path[index] > 0x7E {
        forall depth ensures !ComponentOk(path[start..][..SlashIndex(path[start..])], depth) {
          UnprintableComponent(path[start..], index - start, depth);
        }
        return None;
      }
      index := index + 1;
    }
    return Some(index);
  }

  /** Resolve an absolute path, component by component, to a regular file. */
  method Open(dev: BlockDevice, m: Mount, path: seq<byte>) returns (r: Opened)
    requires Mounted(dev, m) && 0 !in path
    ensures r == Refused(IO) ==> !dev.reliable
    ensures r != Refused(IO) ==> r == OpenSpec(VolumeOf(dev, m), m.rootCluster, path)
  {
    hide Mounted, VolumeOf, Scan, ReaderAccepts, ReaderName, SlashIndex, FirstCluster, FileSize;
    if |path| < 2 || path[0] != SLASH {
      return Refused(BAD_ARGUMENT);
    }
    ghost var v := VolumeOf(dev, m);
    var cluster: nat, count: nat, start: nat := m.rootCluster, 0, 1;
    while true
      invariant start <= |path| && count <= MAX_COMPONENTS && InRange(v.fat, cluster)
      invariant OpenSpec(v, m.rootCluster, path) == OpenFrom(v, cluster, path[start..], count)
      decreases |path| - start
    {
      var index := ComponentEnd(path, start);
      if index.None? {
        return Refused(BAD_PATH);
      }
      ComponentAt(path, start, index.value);
      var component := path[start..index.value];
      EmptyRefused();
      var wanted := MakeShortName(component);
      if |component| == 0 || count + 1 > MAX_COMPONENTS || wanted.None? {
        return Refused(BAD_PATH);
      }
      var status, entry := FindDirectoryEntry(dev, m, cluster, wanted.value);
      if status != OK {
        return Refused(status);
      }
      var first := FirstCluster(entry);
      if index.value == |path| {
        if IsDirectory(entry) {
          return Refused(NOT_REGULAR);
        }
        if FileSize(entry) != 0 && (first < 2 || first > MaxCluster(m)) {
          return Refused(CORRUPT_CHAIN);
        }
        return Handle(first, FileSize(entry));
      }
      if !IsDirectory(entry) || first < 2 || first > MaxCluster(m) {
        return Refused(NOT_FOUND);
      }
      cluster, count, start := first, count + 1, index.value + 1;
    }
  }

  lemma EmptyRefused()
    ensures !ReaderAccepts([])
  {
  }

  lemma {:induction false} SlashIndexAt(s: seq<byte>, k: nat)
    requires k <= |s| && (k == |s| || s[k] == SLASH) && forall i :: 0 <= i < k ==> s[i] != SLASH
    ensures SlashIndex(s) == k
  {
    if k > 0 {
      SlashIndexAt(s[1..], k - 1);
    }
  }

  /** A complete component of a path and what follows it. */
  lemma ComponentAt(path: seq<byte>, start: nat, index: nat)
    requires start <= index <= |path| && (index == |path| || path[index] == SLASH)
    requires forall k :: start <= k < index ==> path[k] != SLASH && Printable(path[k])
    ensures SlashIndex(path[start..]) == index - start
    ensures path[start..][..index - start] == path[start..index]
    ensures index < |path| ==> path[start..][index - start + 1..] == path[index + 1..]
    ensures forall i :: 0 <= i < index - start ==> Printable(path[start..index][i])
  {
    SlashIndexAt(path[start..], index - start);
  }

  /** A byte outside the printable range before the next slash spoils the component. */
  lemma UnprintableComponent(rest: seq<byte>, k: nat, depth: nat)
    requires k < |rest| && !Printable(rest[k]) && forall i :: 0 <= i <= k ==> rest[i] != SLASH
    ensures !ComponentOk(rest[..SlashIndex(rest)], depth)
  {
    var n := SlashIndex(rest);
    assert n < |rest| ==> rest[n] == SLASH;
    assert rest[..n][k] == rest[k];
  }

  // ---- Mounting

  /** The fields of the boot sector the reader looks at. */
  datatype Bpb = Bpb(bytesPerSector: nat, sectorsPerCluster: nat, reservedSectors: nat, fatCount: nat, rootEntries: nat,
                     totalSectors: nat, sectorsPerFat: nat, rootCluster: nat, signature: nat)

  function ParseBpb(b: seq<byte>): (r: Bpb)
    requires |b| >= 512
  {
    var small := Le(b[19..21]);
    Bpb(Le(b[11..13]), b[13], Le(b[14..16]), b[16], Le(b[17..19]),
        if small != 0 then small else Le(b[32..36]), Le(b[36..40]), Le(b[44..48]), Le(b[510..512]))
  }

  predicate PowerOfTwoByte(n: nat) {
    n in [1, 2, 4, 8, 16, 32, 64, 128]
  }

  function FirstDataSector(b: Bpb): nat { b.reservedSectors + b.fatCount * b.sectorsPerFat }

  /** Data clusters of a volume whose tables leave room for data. */
  function ClustersOf(b: Bpb): nat
    requires b.sectorsPerCluster > 0 && FirstDataSector(b) < b.totalSectors
  {
    (b.totalSectors - FirstDataSector(b)) / b.sectorsPerCluster
  }

  /** What a boot sector must say for the volume to be mounted. */
  predicate BpbOk(b: Bpb, blockBytes: nat, partitionBlocks: nat) {
    && b.signature == 0xAA55 && b.bytesPerSector == blockBytes && PowerOfTwoByte(b.sectorsPerCluster)
    && b.reservedSectors != 0 && (b.fatCount == 1 || b.fatCount == 2) && b.rootEntries == 0
    && b.sectorsPerFat != 0 && 0 < b.totalSectors <= partitionBlocks && b.rootCluster >= 2
    && FirstDataSector(b) < b.totalSectors
    && 65525 <= ClustersOf(b) <= 0x0FFF_FFED
    && b.sectorsPerFat * b.bytesPerSector / 4 >= ClustersOf(b) + 2
    && b.rootCluster <= ClustersOf(b) + 1
  }

  function MountOf(b: Bpb, partitionFirst: nat): (m: Mount)
    requires b.sectorsPerCluster > 0 && FirstDataSector(b) < b.totalSectors
  {
    Mount(partitionFirst, b.totalSectors, partitionFirst + b.reservedSectors, partitionFirst + FirstDataSector(b),
          b.sectorsPerCluster, b.rootCluster, ClustersOf(b))
  }

  lemma TableCovers(c: nat, clusters: nat, sectorsPerFat: nat, blockBytes: nat)
    requires blockBytes > 0 && c <= clusters + 1 && sectorsPerFat * blockBytes / 4 >= clusters + 2
    ensures Whole(4 * c, blockBytes) < sectorsPerFat
  {
    WholeAndRest(4 * c, blockBytes);
    assert 4 * c < sectorsPerFat * blockBytes;
    if Whole(4 * c, blockBytes) >= sectorsPerFat {
      MulLe(sectorsPerFat, Whole(4 * c, blockBytes), blockBytes);
    }
  }

  lemma ClustersFit(c: nat, sectors: nat, per: nat)
    requires per > 0 && 2 <= c <= sectors / per + 1
    ensures Times(c - 2, per) + per <= sectors
  {
    TimesIsProduct(c - 2, per);
    MulLe(c - 1, sectors / per, per);
    assert sectors == sectors / per * per + sectors % per;
    assert (c - 1) * per == (c - 2) * per + per;
  }

  lemma ClusterInside(b: Bpb, c: nat)
    requires b.sectorsPerCluster > 0 && FirstDataSector(b) < b.totalSectors && 2 <= c <= ClustersOf(b) + 1
    ensures FirstDataSector(b) + Times(c - 2, b.sectorsPerCluster) + b.sectorsPerCluster <= b.totalSectors
  {
    ClustersFit(c, b.totalSectors - FirstDataSector(b), b.sectorsPerCluster);
  }

  lemma AreasInside(b: Bpb)
    requires b.fatCount == 1 || b.fatCount == 2
    ensures b.reservedSectors + b.sectorsPerFat <= FirstDataSector(b)
  {
  }

  /** A mounted volume's geometry keeps every derived block inside the partition. */
  lemma MountGeometry(blocks: seq<seq<byte>>, blockBytes: nat, b: Bpb, partitionFirst: nat, partitionBlocks: nat)
    requires BlockSize(blockBytes) && |blocks| <= U64_MAX && forall i :: 0 <= i < |blocks| ==> |blocks[i]| == blockBytes
    requires partitionFirst + partitionBlocks <= |blocks| && BpbOk(b, blockBytes, partitionBlocks)
    ensures Geometry(blocks, blockBytes, MountOf(b, partitionFirst))
  {
    hide ClustersOf, FirstDataSector, Whole, Times;
    var m := MountOf(b, partitionFirst);
    AreasInside(b);
    forall c | 0 <= c <= MaxCluster(m) ensures FatBlock(m, blockBytes, c) < PartitionEnd(m) {
      TableCovers(c, m.clusterCount, b.sectorsPerFat, blockBytes);
    }
    forall c | 2 <= c <= MaxCluster(m) ensures DataBlock(m, c) + m.sectorsPerCluster <= PartitionEnd(m) {
      ClusterInside(b, c);
    }
  }

  /** The blocks of table copy `t`. */
  predicate InTable(b: Bpb, partitionFirst: nat, t: nat, block: nat) {
    b.reservedSectors + t * b.sectorsPerFat <= block - partitionFirst < b.reservedSectors + (t + 1) * b.sectorsPerFat
  }

  /** The areas of a mounted volume follow each other: boot sectors, every table copy, then the clusters, which end less
      than one cluster before the volume does. */
  lemma MountPlaces(b: Bpb, blockBytes: nat, partitionFirst: nat, partitionBlocks: nat, c: nat, block: nat)
    requires BlockSize(blockBytes) && BpbOk(b, blockBytes, partitionBlocks)
    requires var m := MountOf(b, partitionFirst); 2 <= c <= MaxCluster(m)
    ensures var m := MountOf(b, partitionFirst);
      && InTable(b, partitionFirst, 0, FatBlock(m, blockBytes, c))
      && (DataBlock(m, c) <= block < DataBlock(m, c) + m.sectorsPerCluster ==>
            forall t :: 0 <= t < b.fatCount ==> !InTable(b, partitionFirst, t, block))
      && PartitionEnd(m) - m.sectorsPerCluster < DataBlock(m, MaxCluster(m)) + m.sectorsPerCluster <= PartitionEnd(m)
  {
    hide Whole, Times;
    var m := MountOf(b, partitionFirst);
    TableCovers(c, m.clusterCount, b.sectorsPerFat, blockBytes);
    forall t | 0 <= t < b.fatCount
      ensures DataBlock(m, c) <= block ==> !InTable(b, partitionFirst, t, block)
    {
      MulLe(t + 1, b.fatCount, b.sectorsPerFat);
    }
    ClusterInside(b, MaxCluster(m));
    LastCluster(b.totalSectors - FirstDataSector(b), b.sectorsPerCluster);
  }

  lemma LastCluster(sectors: nat, per: nat)
    requires per > 0 && sectors / per >= 1
    ensures Times(sectors / per - 1, per) + per > sectors - per
  {
    TimesIsProduct(sectors / per - 1, per);
    assert sectors == sectors / per * per + sectors % per;
    assert (sectors / per - 1) * per == sectors / per * per - per;
  }

  /** The checks of a boot sector. */
  method IsReadable(b: Bpb, blockBytes: nat, partitionBlocks: nat) returns (ok: bool)
    requires BlockSize(blockBytes)
    ensures ok <==> BpbOk(b, blockBytes, partitionBlocks)
  {
    if b.signature != 0xAA55 || b.bytesPerSector != blockBytes || !PowerOfTwoByte(b.sectorsPerCluster)
      || b.reservedSectors == 0 || (b.fatCount != 1 && b.fatCount != 2) || b.rootEntries != 0 || b.sectorsPerFat == 0
      || b.totalSectors == 0 || b.totalSectors > partitionBlocks || b.rootCluster < 2 {
      return false;
    }
    var firstData := b.reservedSectors + b.fatCount * b.sectorsPerFat;
    if firstData >= b.totalSectors {
      return false;
    }
    var clusters := (b.totalSectors - firstData) / b.sectorsPerCluster;
    if clusters < 65525 || clusters > 0x0FFF_FFED || b.sectorsPerFat * b.bytesPerSector / 4 < clusters + 2 {
      return false;
    }
    return b.rootCluster <= clusters + 1;
  }

  /** Mount a partition, or say why it is not a readable FAT32 volume. */
  method MountVolume(dev: BlockDevice, partitionFirst: nat, partitionBlocks: nat) returns (status: Status, m: Mount)
    requires |dev.blocks| <= U64_MAX && forall i :: 0 <= i < |dev.blocks| ==> |dev.blocks[i]| == dev.blockBytes
    ensures status == IO ==> !dev.reliable
    ensures status == BAD_ARGUMENT <==>
      !BlockSize(dev.blockBytes) || partitionBlocks == 0 || partitionFirst + partitionBlocks > |dev.blocks|
    ensures status == OK ==> Mounted(dev, m)
    ensures status !in {BAD_ARGUMENT, IO} ==>
      var b := ParseBpb(dev.blocks[partitionFirst]);
      if BpbOk(b, dev.blockBytes, partitionBlocks) then status == OK && m == MountOf(b, partitionFirst)
      else status == BAD_BPB
  {
    m := Mount(0, 0, 0, 0, 0, 0, 0);
    if !BlockSize(dev.blockBytes) || partitionBlocks == 0 || partitionFirst >= |dev.blocks|
       || partitionBlocks > |dev.blocks| - partitionFirst {
      return BAD_ARGUMENT, m;
    }
    var temporary := m.(partitionFirst := partitionFirst, partitionBlocks := partitionBlocks);
    var bytes;
    status, bytes := ReadSector(dev, temporary, partitionFirst);
    if status != OK {
      return;
    }
    var b := ParseBpb(bytes);
    var fine := IsReadable(b, dev.blockBytes, partitionBlocks);
    if !fine {
      return BAD_BPB, m;
    }
    MountGeometry(dev.blocks, dev.blockBytes, b, partitionFirst, partitionBlocks);
    return OK, MountOf(b, partitionFirst);
  }
}
