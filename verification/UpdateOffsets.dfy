/** The update formats by absolute offsets: where every field of an identity record and of a manifest stands. */
module UpdateOffsets {
  import opened Bytes
  import opened Records
  import Layout = UpdateLayout
  import Identity = UpdateIdentity
  import Manifest = UpdateManifest

  lemma Part(s: seq<byte>, o: nat, p: seq<byte>, i: nat, n: nat)
    requires o + |p| <= |s| && s[o..o + |p|] == p && i + n <= |p|
    ensures s[o + i..o + i + n] == p[i..i + n]
  {
    assert forall k :: 0 <= k < |p| ==> s[o + k] == p[k];
  }

  lemma Tail(p: seq<byte>, z: seq<byte>)
    ensures (p + z)[|p|..|p| + |z|] == z
  {
  }

  // ---- The layout identity

  lemma RegionRow(r: Layout.Region)
    requires Identity.Encodable(r)
    ensures var row := Identity.RowOf(r);
      Le(row[0..4]) == r.kind && Le(row[4..8]) == 0 && Le(row[8..16]) == r.offset && Le(row[16..24]) == r.length
  {
    hide Le, ToLe;
    Widths();
    var a, z, c, d := ToLe(r.kind, 4), ToLe(0, 4), ToLe(r.offset, 8), ToLe(r.length, 8);
    var row := Identity.RowOf(r);
    assert row == a + z + c + d;
    assert row[0..4] == a && row[4..8] == z && row[8..16] == c && row[16..24] == d;
    LeOfToLe(r.kind, 4);
    LeOfToLe(0, 4);
    LeOfToLe(r.offset, 8);
    LeOfToLe(r.length, 8);
  }

  lemma IdentityParts(capacity: word, alignment: word, regions: seq<Layout.Region>, i: nat)
    requires Identity.TableFits(regions) && i < Layout.REGIONS
    ensures var s := Identity.Encode(capacity, alignment, regions);
      && |s| == 512 && s[0..60] == Identity.Prefix(capacity, alignment) && AllZero(s[60..128]) && AllZero(s[392..])
      && s[128 + 24 * i..128 + 24 * i + 24] == Identity.RowOf(regions[i])
  {
    hide Le, ToLe, Join, Identity.Prefix, Identity.RowOf;
    var s, rows := Identity.Encode(capacity, alignment, regions), Identity.RowsOf(regions);
    Identity.TableSize(regions);
    JoinAt(rows, 24, i);
    TimesIsProduct(i, 24);
    var table := Join(rows);
    assert s == Identity.Prefix(capacity, alignment) + Zeros(68) + table + Zeros(120);
    assert s[128..392] == table;
    Part(s, 128, table, 24 * i, 24);
  }

  lemma PrefixFields(capacity: word, alignment: word)
    ensures var p := Identity.Prefix(capacity, alignment);
      && p[0..32] == Identity.MAGIC && Le(p[32..34]) == 1 && Le(p[34..36]) == 128 && Le(p[36..40]) == 512
      && Le(p[40..48]) == capacity && Le(p[48..56]) == alignment && Le(p[56..60]) == 11
  {
    hide Le, ToLe;
    Widths();
    var a, b, c, d, e, f := ToLe(1, 2), ToLe(128, 2), ToLe(512, 4), ToLe(capacity, 8), ToLe(alignment, 8), ToLe(11, 4);
    var p := Identity.Prefix(capacity, alignment);
    assert p == Identity.MAGIC + (a + b + c) + d + e + f;
    assert p[0..32] == Identity.MAGIC && p[32..34] == a && p[34..36] == b && p[36..40] == c;
    assert p[40..48] == d && p[48..56] == e && p[56..60] == f;
    LeOfToLe(1, 2);
    LeOfToLe(128, 2);
    LeOfToLe(512, 4);
    LeOfToLe(capacity, 8);
    LeOfToLe(alignment, 8);
    LeOfToLe(11, 4);
  }

  /** Every field of an identity record, at its offset. */
  lemma IdentityFields(capacity: word, alignment: word, regions: seq<Layout.Region>, i: nat)
    requires Identity.TableFits(regions) && i < Layout.REGIONS
    ensures var s, o := Identity.Encode(capacity, alignment, regions), 128 + 24 * i;
      && |s| == 512 && s[0..32] == Identity.MAGIC && Read2(s, 32) == 1 && Read2(s, 34) == 128 && Read4(s, 36) == 512
      && Read8(s, 40) == capacity && Read8(s, 48) == alignment && Read4(s, 56) == 11
      && AllZero(s[60..128]) && AllZero(s[392..])
      && Read4(s, o) == regions[i].kind && Read4(s, o + 4) == 0
      && Read8(s, o + 8) == regions[i].offset && Read8(s, o + 16) == regions[i].length
  {
    hide Le, ToLe, Identity.Encode, Identity.RowOf, Identity.Prefix, AllZero;
    IdentityParts(capacity, alignment, regions, i);
    PrefixFields(capacity, alignment);
    RegionRow(regions[i]);
    var s, o := Identity.Encode(capacity, alignment, regions), 128 + 24 * i;
    var p, row := Identity.Prefix(capacity, alignment), Identity.RowOf(regions[i]);
    Part(s, 0, p, 0, 32);
    Part(s, 0, p, 32, 2);
    Part(s, 0, p, 34, 2);
    Part(s, 0, p, 36, 4);
    Part(s, 0, p, 40, 8);
    Part(s, 0, p, 48, 8);
    Part(s, 0, p, 56, 4);
    Part(s, o, row, 0, 4);
    Part(s, o, row, 4, 4);
    Part(s, o, row, 8, 8);
    Part(s, o, row, 16, 8);
  }

  // ---- The manifest

  lemma OpeningFields(total: word)
    ensures var p := Manifest.Opening(total);
      Le(p[0..2]) == 1 && Le(p[2..4]) == 0 && Le(p[4..8]) == 256 && Le(p[8..16]) == total
  {
    hide Le, ToLe;
    Widths();
    var a, b, c, d := ToLe(1, 2), ToLe(0, 2), ToLe(256, 4), ToLe(total, 8);
    var p := Manifest.Opening(total);
    assert p == a + b + c + d;
    assert p[0..2] == a && p[2..4] == b && p[4..8] == c && p[8..16] == d;
    LeOfToLe(1, 2);
    LeOfToLe(0, 2);
    LeOfToLe(256, 4);
    LeOfToLe(total, 8);
  }

  lemma CountsFields(count: nat)
    requires count <= U32_MAX
    ensures var p := Manifest.Counts(count); Le(p[0..4]) == 2 && Le(p[4..8]) == count
  {
    hide Le, ToLe;
    Widths();
    var a, b := ToLe(2, 4), ToLe(count, 4);
    var p := Manifest.Counts(count);
    assert p[0..4] == a && p[4..8] == b;
    LeOfToLe(2, 4);
    LeOfToLe(count, 4);
  }

  lemma AlgorithmFields(mode: nat)
    requires mode < 0x1_0000
    ensures var p := Manifest.Algorithms(mode);
      Le(p[0..2]) == 1 && Le(p[2..4]) == 1 && Le(p[4..6]) == mode && Le(p[6..8]) == 0
  {
    hide Le, ToLe;
    Widths();
    var a, c, z := ToLe(1, 2), ToLe(mode, 2), ToLe(0, 2);
    var p := Manifest.Algorithms(mode);
    assert p == a + a + c + z;
    assert p[0..2] == a && p[2..4] == a && p[4..6] == c && p[6..8] == z;
    LeOfToLe(1, 2);
    LeOfToLe(mode, 2);
    LeOfToLe(0, 2);
  }

  lemma SectionFields(kind: nat, offset: word, size: word, count: nat, row: nat)
    requires kind <= U32_MAX && count <= U32_MAX && row <= U32_MAX
    ensures var p := Manifest.Section(kind, offset, size, count, row);
      && Le(p[0..4]) == kind && Le(p[4..8]) == 0 && Le(p[8..16]) == offset && Le(p[16..24]) == size
      && Le(p[24..28]) == count && Le(p[28..32]) == row
  {
    hide Le, ToLe;
    Widths();
    var a, z, c, d, e, f := ToLe(kind, 4), ToLe(0, 4), ToLe(offset, 8), ToLe(size, 8), ToLe(count, 4), ToLe(row, 4);
    var p := Manifest.Section(kind, offset, size, count, row);
    assert p == a + z + c + d + e + f;
    assert p[0..4] == a && p[4..8] == z && p[8..16] == c && p[16..24] == d && p[24..28] == e && p[28..32] == f;
    LeOfToLe(kind, 4);
    LeOfToLe(0, 4);
    LeOfToLe(offset, 8);
    LeOfToLe(size, 8);
    LeOfToLe(count, 4);
    LeOfToLe(row, 4);
  }

  /** A section directory entry at an offset. */
  predicate SectionAt(s: seq<byte>, o: nat, kind: nat, offset: nat, size: nat, count: nat, row: nat)
    requires o + 32 <= |s|
  {
    && Read4(s, o) == kind && Read4(s, o + 4) == 0 && Read8(s, o + 8) == offset && Read8(s, o + 16) == size
    && Read4(s, o + 24) == count && Read4(s, o + 28) == row
  }

  lemma SectionStands(s: seq<byte>, o: nat, kind: nat, offset: word, size: word, count: nat, row: nat)
    requires kind <= U32_MAX && count <= U32_MAX && row <= U32_MAX && o + 32 <= |s|
    requires s[o..o + 32] == Manifest.Section(kind, offset, size, count, row)
    ensures SectionAt(s, o, kind, offset, size, count, row)
  {
    hide Le, Manifest.Section;
    SectionFields(kind, offset, size, count, row);
    var p := Manifest.Section(kind, offset, size, count, row);
    Part(s, o, p, 0, 4);
    Part(s, o, p, 4, 4);
    Part(s, o, p, 8, 8);
    Part(s, o, p, 16, 8);
    Part(s, o, p, 24, 4);
    Part(s, o, p, 28, 4);
  }

  /** The pieces of a header, where they stand. */
  lemma HeaderParts(c: Manifest.Scalars, schema: seq<byte>, count: nat)
    requires c.mode < 0x1_0000 && |schema| == 32 && count <= 16
    ensures var h := Manifest.Header(c, schema, count);
      && h[0..32] == Manifest.MAGIC && h[32..48] == Manifest.Opening(512 + 192 * count)
      && h[48..56] == Manifest.Counts(count) && h[56..88] == Manifest.Generations(c)
      && h[88..96] == Manifest.Algorithms(c.mode) && h[96..128] == schema
      && h[128..160] == Manifest.Section(1, 256, 256, 1, 256)
      && h[160..192] == Manifest.Section(2, 512, 192 * count, count, 192) && h[192..256] == Zeros(64)
  {
    hide Manifest.Opening, Manifest.Counts, Manifest.Generations, Manifest.Algorithms, Manifest.Section;
    var h := Manifest.Header(c, schema, count);
    var a, b, g, k := Manifest.Opening(512 + 192 * count), Manifest.Counts(count), Manifest.Generations(c),
      Manifest.Algorithms(c.mode);
    var d, e := Manifest.Section(1, 256, 256, 1, 256), Manifest.Section(2, 512, 192 * count, count, 192);
    assert h == Manifest.MAGIC + a + b + g + k + schema + (d + e + Zeros(64));
  }

  /** Every header field of an encoded manifest, at its offset. */
  lemma HeaderFields(m: Manifest.Manifest)
    requires Manifest.Fits(m)
    ensures var s, n, c := Manifest.Encode(m), |m.components|, m.scalars;
      && |s| == 512 + 192 * n && s[0..32] == Manifest.MAGIC && Read2(s, 32) == 1 && Read2(s, 34) == 0
      && Read4(s, 36) == 256 && Read8(s, 40) == |s| && Read4(s, 48) == 2 && Read4(s, 52) == n
      && Read8(s, 56) == c.generation && Read8(s, 64) == c.predecessor && Read8(s, 72) == c.rollback
      && Read8(s, 80) == c.policy && Read2(s, 88) == 1 && Read2(s, 90) == 1 && Read2(s, 92) == c.mode
         && Read2(s, 94) == 0
      && s[96..128] == m.schema && SectionAt(s, 128, 1, 256, 256, 1, 256) && SectionAt(s, 160, 2, 512, 192 * n, n, 192)
      && AllZero(s[192..256])
  {
    hide Le, Manifest.Header, Manifest.BindingBytes, Join, Manifest.RowsOf, SectionAt, Manifest.Section;
    hide Manifest.Opening, Manifest.Counts, Manifest.Generations, Manifest.Algorithms, Manifest.Encode;
    var s, n, c := Manifest.Encode(m), |m.components|, m.scalars;
    Manifest.EncodeSize(m);
    HeadOf(m);
    var h := Manifest.Header(c, m.schema, n);
    HeaderParts(c, m.schema, n);
    Part(s, 0, h, 0, 32);
    Part(s, 0, h, 32, 16);
    Part(s, 0, h, 48, 8);
    Part(s, 0, h, 56, 32);
    Part(s, 0, h, 88, 8);
    Part(s, 0, h, 96, 32);
    Part(s, 0, h, 128, 32);
    Part(s, 0, h, 160, 32);
    Part(s, 0, h, 192, 64);
    OpeningStands(s, 512 + 192 * n);
    CountsStand(s, n);
    GenerationsStand(s, c);
    AlgorithmsStand(s, c.mode);
    SectionStands(s, 128, 1, 256, 256, 1, 256);
    SectionStands(s, 160, 2, 512, 192 * n, n, 192);
  }

  lemma HeadOf(m: Manifest.Manifest)
    requires Manifest.Fits(m)
    ensures var s := Manifest.Encode(m);
      && |s| >= 512 && s[0..256] == Manifest.Header(m.scalars, m.schema, |m.components|)
      && s[256..512] == Manifest.BindingBytes(m.binding)
  {
    hide Manifest.Header, Manifest.BindingBytes, Join, Manifest.RowsOf;
  }

  lemma OpeningStands(s: seq<byte>, total: word)
    requires |s| >= 512 && s[32..48] == Manifest.Opening(total)
    ensures Read2(s, 32) == 1 && Read2(s, 34) == 0 && Read4(s, 36) == 256 && Read8(s, 40) == total
  {
    hide Le, Manifest.Opening;
    OpeningFields(total);
    var p := Manifest.Opening(total);
    Part(s, 32, p, 0, 2);
    Part(s, 32, p, 2, 2);
    Part(s, 32, p, 4, 4);
    Part(s, 32, p, 8, 8);
  }

  lemma CountsStand(s: seq<byte>, count: nat)
    requires |s| >= 512 && count <= U32_MAX && s[48..56] == Manifest.Counts(count)
    ensures Read4(s, 48) == 2 && Read4(s, 52) == count
  {
    hide Le, Manifest.Counts;
    CountsFields(count);
    var p := Manifest.Counts(count);
    Part(s, 48, p, 0, 4);
    Part(s, 48, p, 4, 4);
  }

  lemma GenerationsStand(s: seq<byte>, c: Manifest.Scalars)
    requires |s| >= 512 && s[56..88] == Manifest.Generations(c)
    ensures Read8(s, 56) == c.generation && Read8(s, 64) == c.predecessor
    ensures Read8(s, 72) == c.rollback && Read8(s, 80) == c.policy
  {
    hide Le, Manifest.Generations;
    Manifest.GenerationsRead(c);
    var p := Manifest.Generations(c);
    Part(s, 56, p, 0, 8);
    Part(s, 56, p, 8, 8);
    Part(s, 56, p, 16, 8);
    Part(s, 56, p, 24, 8);
  }

  lemma AlgorithmsStand(s: seq<byte>, mode: nat)
    requires |s| >= 512 && mode < 0x1_0000 && s[88..96] == Manifest.Algorithms(mode)
    ensures Read2(s, 88) == 1 && Read2(s, 90) == 1 && Read2(s, 92) == mode && Read2(s, 94) == 0
  {
    hide Le, Manifest.Algorithms;
    AlgorithmFields(mode);
    var p := Manifest.Algorithms(mode);
    Part(s, 88, p, 0, 2);
    Part(s, 88, p, 2, 2);
    Part(s, 88, p, 4, 2);
    Part(s, 88, p, 6, 2);
  }

  /** Every field of the binding of an encoded manifest, at its offset. */
  lemma BindingFields(m: Manifest.Manifest)
    requires Manifest.Fits(m)
    ensures var s, b := Manifest.Encode(m), m.binding;
      && |s| >= 512 && s[256..288] == b.product && s[288..320] == b.architecture && s[320..352] == b.platform
      && s[352..384] == b.environment && s[384..416] == b.protocol && s[416..448] == b.domain
      && Read2(s, 448) == b.major && Read2(s, 450) == b.minor && Read4(s, 452) == b.hardwareMinimum
      && Read4(s, 456) == b.hardwareMaximum && AllZero(s[460..512])
  {
    hide Le, Manifest.Header, Manifest.Limits, Manifest.Encode;
    var s, b := Manifest.Encode(m), m.binding;
    HeadOf(m);
    var p, l, z := Manifest.BindingBytes(b), Manifest.Limits(b), Zeros(52);
    Tail(b.product + b.architecture + b.platform + b.environment + b.protocol + b.domain + l, z);
    assert p[0..32] == b.product && p[32..64] == b.architecture && p[64..96] == b.platform
      && p[96..128] == b.environment;
    assert p[128..160] == b.protocol && p[160..192] == b.domain && p[192..204] == l;
    hide Manifest.BindingBytes;
    Part(s, 256, p, 0, 32);
    Part(s, 256, p, 32, 32);
    Part(s, 256, p, 64, 32);
    Part(s, 256, p, 96, 32);
    Part(s, 256, p, 128, 32);
    Part(s, 256, p, 160, 32);
    Part(s, 256, p, 192, 12);
    Part(s, 256, p, 204, 52);
    Manifest.LimitsRead(b);
    Part(s, 448, l, 0, 2);
    Part(s, 448, l, 2, 2);
    Part(s, 448, l, 4, 4);
    Part(s, 448, l, 8, 4);
  }

  lemma RowStands(m: Manifest.Manifest, i: nat)
    requires Manifest.Fits(m) && i < |m.components|
    ensures var s, o := Manifest.Encode(m), 512 + 192 * i;
      o + 192 <= |s| && s[o..o + 192] == Manifest.RowOf(m.components[i])
  {
    hide Manifest.Header, Manifest.BindingBytes, Join, Manifest.RowOf;
    var s, rows := Manifest.Encode(m), Manifest.RowsOf(m.components);
    JoinAt(rows, 192, i);
    TimesIsProduct(i, 192);
    var table := Join(rows);
    assert s[512..512 + |table|] == table;
    Part(s, 512, table, 192 * i, 192);
  }

  /** Every field of a component of an encoded manifest, at its offset. */
  lemma ComponentFields(m: Manifest.Manifest, i: nat)
    requires Manifest.Fits(m) && i < |m.components|
    ensures var s, o, c := Manifest.Encode(m), 512 + 192 * i, m.components[i];
      && o + 192 <= |s| && s[o..o + 32] == c.logical && s[o + 32..o + 64] == c.content
      && s[o + 64..o + 96] == c.destinationId && s[o + 96..o + 128] == c.contract
      && Read8(s, o + 128) == c.shape.offset && Read8(s, o + 136) == c.shape.exact
         && Read8(s, o + 144) == c.shape.maximum
      && Read2(s, o + 152) == c.shape.role && Read2(s, o + 154) == c.shape.destination
         && Read2(s, o + 156) == c.shape.format
      && Read2(s, o + 158) == c.shape.flags && Read4(s, o + 160) == c.shape.order && AllZero(s[o + 164..o + 192])
  {
    hide Le, Manifest.Encode, Manifest.Ranges, Manifest.Classes;
    var s, o, c := Manifest.Encode(m), 512 + 192 * i, m.components[i];
    RowStands(m, i);
    var row, x, y, z := Manifest.RowOf(c), Manifest.Ranges(c.shape), Manifest.Classes(c.shape), Zeros(28);
    Tail(c.logical + c.content + c.destinationId + c.contract + x + y, z);
    assert row[0..32] == c.logical && row[32..64] == c.content && row[64..96] == c.destinationId;
    assert row[96..128] == c.contract && row[128..152] == x && row[152..164] == y;
    hide Manifest.RowOf;
    Part(s, o, row, 0, 32);
    Part(s, o, row, 32, 32);
    Part(s, o, row, 64, 32);
    Part(s, o, row, 96, 32);
    Part(s, o, row, 128, 24);
    Part(s, o, row, 152, 12);
    Part(s, o, row, 164, 28);
    ShapeStands(s, o, c.shape);
  }

  lemma ShapeStands(s: seq<byte>, o: nat, h: Manifest.Shape)
    requires Manifest.ShapeFits(h) && o + 192 <= |s|
    requires s[o + 128..o + 152] == Manifest.Ranges(h) && s[o + 152..o + 164] == Manifest.Classes(h)
    ensures Read8(s, o + 128) == h.offset && Read8(s, o + 136) == h.exact && Read8(s, o + 144) == h.maximum
    ensures Read2(s, o + 152) == h.role && Read2(s, o + 154) == h.destination && Read2(s, o + 156) == h.format
    ensures Read2(s, o + 158) == h.flags && Read4(s, o + 160) == h.order
  {
    hide Le, Manifest.Ranges, Manifest.Classes;
    Manifest.RangesRead(h);
    Manifest.ClassesRead(h);
    var x, y := Manifest.Ranges(h), Manifest.Classes(h);
    Part(s, o + 128, x, 0, 8);
    Part(s, o + 128, x, 8, 8);
    Part(s, o + 128, x, 16, 8);
    Part(s, o + 152, y, 0, 2);
    Part(s, o + 152, y, 2, 2);
    Part(s, o + 152, y, 4, 2);
    Part(s, o + 152, y, 6, 2);
    Part(s, o + 152, y, 8, 4);
  }

  /** What every accepted manifest says in its bytes: a generation above its predecessor, a known mode, a hardware
      range, and components in order with a size inside their bound and their own destination. */
  lemma AcceptedBytes(s: seq<byte>, n: nat, i: nat)
    requires Manifest.Canonical(s, n) && i < n
    ensures |s| == 512 + 192 * n && 1 <= n <= 16
    ensures Read8(s, 64) < Read8(s, 56) && 1 <= Read2(s, 92) <= 4 && Read4(s, 452) <= Read4(s, 456)
    ensures s[96..128] != Zeros(32)
    ensures var o := 512 + 192 * i;
      && Read4(s, o + 160) == i && 1 <= Read2(s, o + 152) <= 5 && Read2(s, o + 154) == Read2(s, o + 152)
      && 1 <= Read2(s, o + 156) <= 5 && Read2(s, o + 158) <= 1
      && 0 < Read8(s, o + 136) <= Read8(s, o + 144) && Read8(s, o + 128) + Read8(s, o + 136) <= U64_MAX
  {
    hide Le, Manifest.Encode, Manifest.Read, SectionAt;
    var m := Manifest.Read(s, n);
    SizedIs(s, n);
    HeaderFields(m);
    BindingFields(m);
    ComponentFields(m, i);
    assert Manifest.ComponentOk(m.components[i], i);
  }

  /** Two components of an accepted manifest have different identities, disjoint ranges, and not one singleton role. */
  lemma AcceptedPairs(s: seq<byte>, n: nat, i: nat, j: nat)
    requires Manifest.Canonical(s, n) && i < j < n
    ensures |s| == 512 + 192 * n
    ensures var o, p := 512 + 192 * i, 512 + 192 * j;
      && s[o..o + 32] != s[p..p + 32]
      && (Read2(s, o + 152) == Read2(s, p + 152) ==> Read2(s, o + 152) == 2 || Read2(s, o + 152) == 4)
      && (Read8(s, o + 128) + Read8(s, o + 136) <= Read8(s, p + 128) ||
          Read8(s, p + 128) + Read8(s, p + 136) <= Read8(s, o + 128))
  {
    hide Le, Manifest.Encode, Manifest.Read, SectionAt;
    var m := Manifest.Read(s, n);
    SizedIs(s, n);
    AcceptedBytes(s, n, i);
    AcceptedBytes(s, n, j);
    ComponentFields(m, i);
    ComponentFields(m, j);
    assert Manifest.Compatible(m.components[i], m.components[j]);
  }

  lemma SizedIs(s: seq<byte>, n: nat)
    requires Manifest.Sized(s, n)
    ensures |Manifest.Read(s, n).components| == n && Manifest.Fits(Manifest.Read(s, n))
  {
  }
}
