/** The disk the composer leaves behind, byte for byte, and what the boot-time reader makes of it. */
module FatPublish {
  import opened Bytes
  import opened Records
  import opened FatVolume
  import opened FatNames
  import opened FatReader
  import opened FatStore
  import opened FatDevice
  import opened FatAgreement
  import FatWriter

  const SECTOR: nat := 512

  /** The boot sector of a composed partition: 512-byte sectors, two tables, and what the composer does not look at. */
  datatype Boot = Boot(
    jump: seq<byte>, sectorsPerCluster: byte, reserved: nat, rootEntries: nat, small: nat, media: seq<byte>, total: nat,
    sectorsPerFat: nat, extra: seq<byte>, root: nat, rest: seq<byte>)

  predicate BootFits(b: Boot) {
    && |b.jump| == 11 && |b.media| == 11 && |b.extra| == 4 && |b.rest| == 462
    && b.reserved < 0x1_0000 && b.rootEntries < 0x1_0000 && b.small < 0x1_0000
    && b.total <= U32_MAX && b.sectorsPerFat <= U32_MAX && b.root <= U32_MAX
  }

  /** The sector, field after field. */
  function BootBytes(b: Boot): (s: seq<byte>)
    requires BootFits(b)
    ensures |s| == SECTOR
  {
    Widths();
    BootFront(b) + ToLe(b.total, 4) + ToLe(b.sectorsPerFat, 4) + b.extra + ToLe(b.root, 4) + b.rest + [0x55, 0xAA]
  }

  function BootFront(b: Boot): (s: seq<byte>)
    requires BootFits(b)
    ensures |s| == 32
  {
    Widths();
    b.jump + ToLe(512, 2) + [b.sectorsPerCluster] + ToLe(b.reserved, 2) + [2] + ToLe(b.rootEntries, 2)
      + ToLe(b.small, 2) + b.media
  }

  lemma BootFrontReads(b: Boot)
    requires BootFits(b)
    ensures var s := BootFront(b);
      && Le(s[11..13]) == 512 && s[13] == b.sectorsPerCluster && Le(s[14..16]) == b.reserved && s[16] == 2
      && Le(s[17..19]) == b.rootEntries && Le(s[19..21]) == b.small
  {
    hide ToLe, Le;
    Widths();
    var s := BootFront(b);
    var p, q, r, t := ToLe(512, 2), ToLe(b.reserved, 2), ToLe(b.rootEntries, 2), ToLe(b.small, 2);
    assert s == b.jump + p + [b.sectorsPerCluster] + q + [2] + r + t + b.media;
    assert s[11..13] == p && s[14..16] == q && s[17..19] == r && s[19..21] == t;
    LeOfToLe(512, 2);
    LeOfToLe(b.reserved, 2);
    LeOfToLe(b.rootEntries, 2);
    LeOfToLe(b.small, 2);
  }

  lemma BootBackReads(b: Boot)
    requires BootFits(b)
    ensures var s := BootBytes(b);
      && s[..32] == BootFront(b) && Le(s[32..36]) == b.total && Le(s[36..40]) == b.sectorsPerFat
      && Le(s[44..48]) == b.root && Le(s[510..512]) == 0xAA55
  {
    hide ToLe, BootFront, Le;
    Widths();
    var s := BootBytes(b);
    var f, p, q, r := BootFront(b), ToLe(b.total, 4), ToLe(b.sectorsPerFat, 4), ToLe(b.root, 4);
    assert s == f + p + q + b.extra + r + b.rest + [0x55, 0xAA];
    assert s[..32] == f && s[32..36] == p && s[36..40] == q && s[44..48] == r && s[510..512] == [0x55, 0xAA];
    LeOfToLe(b.total, 4);
    LeOfToLe(b.sectorsPerFat, 4);
    LeOfToLe(b.root, 4);
    Signature();
  }

  lemma Signature()
    ensures Le([0x55, 0xAA]) == 0xAA55
  {
    assert [0x55, 0xAA][1..] == [0xAA] && [0xAA][1..] == [];
  }

  /** The reader sees every field of a written boot sector. */
  lemma BootReads(b: Boot)
    requires BootFits(b)
    ensures ParseBpb(BootBytes(b)) ==
      Bpb(512, b.sectorsPerCluster, b.reserved, 2, b.rootEntries, if b.small != 0 then b.small else b.total,
          b.sectorsPerFat, b.root, 0xAA55)
  {
    hide ToLe, BootFront, Le, BootBytes;
    var s, f := BootBytes(b), BootFront(b);
    BootFrontReads(b);
    BootBackReads(b);
    assert f[11..13] == s[11..13] && f[14..16] == s[14..16] && f[17..19] == s[17..19] && f[19..21] == s[19..21];
    assert f[13] == s[13] && f[16] == s[16];
  }

  /** A disk around the tables and the clusters: what stands before the partition at sector `lba`, its boot sector, the
      rest of the reserved sectors, the rest of each table behind its last entry, and everything behind the clusters. */
  datatype Disk = Disk(
    lba: nat, before: seq<byte>, boot: Boot, reserved: seq<byte>, padding: seq<byte>, back: seq<byte>)

  /** Everything in front of the tables. */
  function Front(d: Disk): (s: seq<byte>)
    requires BootFits(d.boot)
  {
    d.before + BootBytes(d.boot) + d.reserved
  }

  /** Clusters of the data area, as the composer counts them. */
  function ClusterTotal(b: Boot): (n: nat)
    requires b.sectorsPerCluster > 0 && b.reserved + 2 * b.sectorsPerFat <= b.total
  {
    (b.total - b.reserved - 2 * b.sectorsPerFat) / b.sectorsPerCluster
  }

  /** One copy of the table with its padding. */
  function TableArea(d: Disk, fat: seq<nat>): (area: seq<byte>)
    requires Words(fat)
  {
    TableBytes(fat) + d.padding
  }

  predicate Words(fat: seq<nat>) {
    forall c :: 0 <= c < |fat| ==> fat[c] <= U32_MAX
  }

  /** The composer's disk: both table copies from the table offset on, then the clusters from the data offset on. */
  function RawDisk(d: Disk, v: Volume): (raw: seq<byte>)
    requires BootFits(d.boot) && Words(v.fat) && |v.data| >= 2
  {
    Front(d) + (TableArea(d, v.fat) + TableArea(d, v.fat)) + Join(v.data[2..]) + d.back
  }

  /** A disk the composer accepts, with the sizes its boot sector says. */
  ghost predicate Composed(d: Disk, v: Volume) {
    && v.Valid() && Words(v.fat) && BootFits(d.boot)
    && var b := d.boot;
       && b.sectorsPerCluster > 0 && b.reserved >= 2 && b.sectorsPerFat > 0 && b.root >= 2 && b.small == 0
       && b.reserved + 2 * b.sectorsPerFat <= b.total
       && |d.before| == SECTOR * d.lba && |d.reserved| == SECTOR * (b.reserved - 1)
       && 4 * |v.fat| + |d.padding| == SECTOR * b.sectorsPerFat
       && v.clusterSize == SECTOR * b.sectorsPerCluster && |v.fat| == ClusterTotal(b) + 2
       && SECTOR * (d.lba + b.total) <= |RawDisk(d, v)| <= U64_MAX
  }

  /** What the reader asks beyond the composer. */
  predicate ReaderToo(b: Boot)
    requires b.sectorsPerCluster > 0 && b.reserved + 2 * b.sectorsPerFat <= b.total
  {
    && PowerOfTwoByte(b.sectorsPerCluster) && b.rootEntries == 0 && 65525 <= ClusterTotal(b) <= 0x0FFF_FFED
    && b.root <= ClusterTotal(b) + 1
  }

  function BlocksOf(raw: seq<byte>): (blocks: seq<seq<byte>>)
    ensures |blocks| == |raw| / SECTOR && forall k :: 0 <= k < |blocks| ==> |blocks[k]| == SECTOR
  {
    seq(|raw| / SECTOR, k requires 0 <= k < |raw| / SECTOR => raw[SECTOR * k..SECTOR * k + SECTOR])
  }

  lemma {:induction false} TimesScales(n: nat, k: nat)
    ensures Times(n, SECTOR * k) == SECTOR * Times(n, k)
  {
    if n > 0 {
      TimesScales(n - 1, k);
    }
  }

  /** A run of sectors is a slice of the disk. */
  lemma {:induction false} RunIsSlice(raw: seq<byte>, first: nat, n: nat)
    requires SECTOR * (first + n) <= |raw|
    ensures first + n <= |BlocksOf(raw)|
    ensures SectorRun(BlocksOf(raw), first, n) == raw[SECTOR * first..SECTOR * (first + n)]
    decreases n
  {
    if n > 0 {
      RunIsSlice(raw, first + 1, n - 1);
      assert raw[SECTOR * first..SECTOR * (first + n)] ==
        raw[SECTOR * first..SECTOR * first + SECTOR] + raw[SECTOR * (first + 1)..SECTOR * (first + n)];
    }
  }

  lemma Areas(d: Disk, v: Volume)
    requires Composed(d, v)
    ensures |Front(d)| == SECTOR * (d.lba + d.boot.reserved)
    ensures |TableArea(d, v.fat)| == SECTOR * d.boot.sectorsPerFat
    ensures |Join(v.data[2..])| == Times(|v.fat| - 2, v.clusterSize)
  {
    hide Join, Times, BootBytes, RawDisk;
    JoinSize(v.data[2..], v.clusterSize);
  }

  /** The first copy of the table stands where the reader looks for it. */
  lemma TableOnDisk(d: Disk, v: Volume, k: nat)
    requires Composed(d, v) && k < d.boot.sectorsPerFat
    ensures var blocks := BlocksOf(RawDisk(d, v)); var at := d.lba + d.boot.reserved + k;
      at < |blocks| && IsChunk(blocks[at], TableArea(d, v.fat), SECTOR, k)
  {
    hide Join, TableArea, Front, BootBytes;
    var raw, area, front := RawDisk(d, v), TableArea(d, v.fat), Front(d);
    Areas(d, v);
    var at := d.lba + d.boot.reserved + k;
    assert SECTOR * at == |front| + SECTOR * k;
    assert raw == front + area + (area + Join(v.data[2..]) + d.back);
    SliceOfPart(front, area, area + Join(v.data[2..]) + d.back, SECTOR * k, SECTOR);
  }

  /** Every cluster stands where the reader looks for it. */
  lemma ClusterOnDisk(d: Disk, v: Volume, c: nat)
    requires Composed(d, v) && 2 <= c < |v.fat|
    ensures var b, blocks := d.boot, BlocksOf(RawDisk(d, v));
      var at := d.lba + b.reserved + 2 * b.sectorsPerFat + Times(c - 2, b.sectorsPerCluster);
      at + b.sectorsPerCluster <= |blocks| && SectorRun(blocks, at, b.sectorsPerCluster) == v.data[c]
  {
    hide Join, TableArea, BlocksOf, SectorRun, Front, BootBytes;
    var b, raw, area, clusters := d.boot, RawDisk(d, v), TableArea(d, v.fat), Join(v.data[2..]);
    var at := d.lba + b.reserved + 2 * b.sectorsPerFat + Times(c - 2, b.sectorsPerCluster);
    Areas(d, v);
    TimesScales(c - 2, b.sectorsPerCluster);
    JoinAt(v.data[2..], v.clusterSize, c - 2);
    var start, head := Times(c - 2, v.clusterSize), Front(d) + (area + area);
    assert SECTOR * at == |head| + start;
    assert clusters[start..start + v.clusterSize] == v.data[c];
    SliceOfPart(head, clusters, d.back, start, v.clusterSize);
    RunIsSlice(raw, at, b.sectorsPerCluster);
  }

  lemma SliceOfPart(a: seq<byte>, b: seq<byte>, c: seq<byte>, i: nat, n: nat)
    requires i + n <= |b|
    ensures (a + b + c)[|a| + i..|a| + i + n] == b[i..i + n]
  {
    var s := a + b + c;
    assert forall k :: 0 <= k < |b| ==> s[|a| + k] == b[k];
  }

  lemma BootOnDisk(d: Disk, v: Volume)
    requires Composed(d, v)
    ensures var blocks := BlocksOf(RawDisk(d, v)); d.lba < |blocks| && blocks[d.lba] == BootBytes(d.boot)
  {
    hide Join, TableArea, BootBytes;
    var raw, boot, area := RawDisk(d, v), BootBytes(d.boot), TableArea(d, v.fat);
    var tail := d.reserved + (area + area) + Join(v.data[2..]) + d.back;
    assert raw == d.before + boot + tail;
    SliceOfPart(d.before, boot, tail, 0, SECTOR);
    assert boot[0..0 + SECTOR] == boot;
  }

  /** The reader accepts a composed boot sector exactly when its own further checks pass. */
  lemma BootAccepted(d: Disk, v: Volume)
    requires Composed(d, v)
    ensures BpbOk(ParseBpb(BootBytes(d.boot)), SECTOR, d.boot.total) <==> ReaderToo(d.boot)
    ensures ReaderToo(d.boot) ==>
      var p := ParseBpb(BootBytes(d.boot));
      && p.sectorsPerCluster > 0 && FirstDataSector(p) < p.totalSectors
      && MountOf(p, d.lba) == Mount(d.lba, d.boot.total, d.lba + d.boot.reserved,
           d.lba + d.boot.reserved + 2 * d.boot.sectorsPerFat, d.boot.sectorsPerCluster, d.boot.root,
           ClusterTotal(d.boot))
  {
    hide ParseBpb, BootBytes, RawDisk;
    BootReads(d.boot);
    var b := d.boot;
    assert b.sectorsPerFat * SECTOR / 4 == 128 * b.sectorsPerFat;
  }

  /** The composed disk is a flushed device for the mount its boot sector describes. */
  lemma DiskIsFlushed(dev: BlockDevice, d: Disk, v: Volume)
    requires Composed(d, v) && ReaderToo(d.boot) && dev.blockBytes == SECTOR && dev.blocks == BlocksOf(RawDisk(d, v))
    ensures BpbOk(ParseBpb(BootBytes(d.boot)), SECTOR, d.boot.total)
    ensures Flushed(dev, MountOf(ParseBpb(BootBytes(d.boot)), d.lba), v, d.padding)
  {
    hide BootBytes, BlocksOf, RawDisk, IsChunk, SectorRun, Whole, Geometry, ParseBpb, MountOf, BpbOk, Times, TableArea;
    var p := ParseBpb(BootBytes(d.boot));
    BootAccepted(d, v);
    Room(d, v);
    MountGeometry(dev.blocks, SECTOR, p, d.lba, d.boot.total);
    var m := MountOf(p, d.lba);
    ClusterSize(d.boot.sectorsPerCluster);
    forall c | 0 <= c <= MaxCluster(m)
      ensures FatBlock(m, SECTOR, c) < |dev.blocks|
      ensures IsChunk(dev.blocks[FatBlock(m, SECTOR, c)], TableArea(d, v.fat), SECTOR, Whole(4 * c, SECTOR))
    {
      TableCovers(c, m.clusterCount, d.boot.sectorsPerFat, SECTOR);
      TableOnDisk(d, v, Whole(4 * c, SECTOR));
    }
    forall c | 2 <= c <= MaxCluster(m)
      ensures DataBlock(m, c) + m.sectorsPerCluster <= |dev.blocks|
      ensures SectorRun(dev.blocks, DataBlock(m, c), m.sectorsPerCluster) == v.data[c]
    {
      ClusterOnDisk(d, v, c);
    }
    AreaIs(d, v);
  }

  lemma AreaIs(d: Disk, v: Volume)
    requires Words(v.fat)
    ensures TableArea(d, v.fat) == TableBytes(v.fat) + d.padding
  {
  }

  lemma Room(d: Disk, v: Volume)
    requires Composed(d, v)
    ensures d.lba + d.boot.total <= |BlocksOf(RawDisk(d, v))| <= U64_MAX
  {
    hide RawDisk;
  }

  lemma ClusterSize(per: nat)
    ensures Times(per, SECTOR) == SECTOR * per
  {
    TimesIsProduct(per, SECTOR);
  }

  /** Write a composed disk and mount it: it mounts exactly when the reader's own checks pass, as a flushed device. */
  method PublishAndMount(d: Disk, v: Volume, reliable: bool) returns (dev: BlockDevice, mounted: Status, m: Mount)
    requires Composed(d, v)
    ensures fresh(dev) && dev.reliable == reliable && (mounted == IO ==> !reliable)
    ensures mounted != IO ==> mounted == if ReaderToo(d.boot) then OK else BAD_BPB
    ensures mounted == OK ==> Mounted(dev, m) && Flushed(dev, m, v, d.padding) && m.rootCluster == d.boot.root
  {
    hide Mounted, Flushed, RawDisk, BlocksOf, ParseBpb, BpbOk, MountOf, BootBytes;
    BootOnDisk(d, v);
    BootAccepted(d, v);
    Room(d, v);
    dev := new BlockDevice(SECTOR, BlocksOf(RawDisk(d, v)), reliable);
    mounted, m := MountVolume(dev, d.lba, d.boot.total);
    if mounted == OK {
      DiskIsFlushed(dev, d, v);
    }
  }

  /** The whole way: put a file into the composer's image, write the disk, mount it and load any path. The mount
      succeeds exactly when the reader's own checks of the boot sector pass; then the stored path loads the stored
      bytes, and every other file what it held before. */
  method ComposeAndBoot(image: FatWriter.Fat32Image, d: Disk, reliable: bool, directory: nat, path: seq<seq<byte>>,
                        bytes: seq<byte>, target: seq<seq<byte>>, buffer: array<byte>, ghost was: seq<byte>)
    returns (ok: bool, mounted: Status, status: Status, size: nat)
    requires image.Sound() && Composed(d, image.Vol()) && d.boot.root in image.catalog.dirs && PathOk(path)
      && PathOk(target)
    requires var at := PlaceIn(image, d.boot.root, path); at.Some? && at.value.0 == directory
    modifies image.fat, image.data, image`catalog, buffer
    ensures image.Sound() && (mounted == IO || status == IO ==> !reliable)
    ensures ok <==> old(PutFits(image.Vol(), image.catalog, directory, ReaderName(path[|path| - 1]), |bytes|))
    ensures mounted != IO ==> mounted == if ReaderToo(d.boot) then OK else BAD_BPB
    ensures mounted == OK && status != IO && ok && |bytes| <= buffer.Length
            && old(PlaceIn(image, d.boot.root, target) == PlaceIn(image, d.boot.root, path)) ==>
      status == OK && size == |bytes| && buffer[..size] == bytes
    ensures mounted == OK && status != IO && |was| <= buffer.Length
            && old(Shows(image.Vol(), image.catalog, d.boot.root, target, was))
            && (!ok || old(PlaceIn(image, d.boot.root, target) != PlaceIn(image, d.boot.root, path))) ==>
      status == OK && size == |was| && buffer[..size] == was
  {
    hide Inv, Readable, VolumeOf, Mounted, ReaderName, Shows, Flushed, PutFits, ReaderToo;
    ghost var same := PlaceIn(image, d.boot.root, target) == PlaceIn(image, d.boot.root, path);
    ghost var before := image.Vol();
    ok := PutForReader(image, d.boot.root, directory, path, bytes, target, was);
    ghost var expected := if ok && same then bytes else was;
    ghost var v, cat := image.Vol(), image.catalog;
    StillComposed(d, before, v);
    var dev, m;
    dev, mounted, m := PublishAndMount(d, Volume(image.clusterSize, image.fat[..], image.data[..]), reliable);
    status, size := BAD_ARGUMENT, 0;
    if mounted != OK {
      return;
    }
    if Shows(v, cat, d.boot.root, target, expected) {
      FlushedReadable(dev, m, v, cat, d.padding, target, expected);
    }
    status, size := Load(dev, m, target, buffer, expected);
  }

  /** A store keeps the sizes of a volume, and so its disk. */
  lemma StillComposed(d: Disk, v: Volume, w: Volume)
    requires Composed(d, v) && w.Valid() && Words(w.fat) && w.clusterSize == v.clusterSize && |w.fat| == |v.fat|
    ensures Composed(d, w)
  {
    hide Join, BootBytes;
    JoinSize(v.data[2..], v.clusterSize);
    JoinSize(w.data[2..], w.clusterSize);
  }
}
