/** The 512-byte layout identity record and its independent decoder. */
module UpdateIdentity {
  import opened Bytes
  import opened Records
  import opened UpdateLayout

  const IDENTITY_BYTES: nat := 512
  const ROW_BYTES: nat := 24

  // The magic text in ASCII, padded with zeros.
  const MAGIC: seq<byte> := [82, 73, 66, 79, 78, 45, 85, 80, 68, 65, 84, 69, 45, 76, 65, 89, 79, 85, 84, 45, 86, 49, 0,
    0, 0, 0, 0, 0, 0, 0, 0, 0]

  // ---- Encoding

  /** Version 1, header of 128 bytes, total of 512 bytes. */
  function Version(): (s: seq<byte>)
    ensures |s| == 8
  {
    Widths();
    ToLe(1, 2) + ToLe(128, 2) + ToLe(IDENTITY_BYTES, 4)
  }

  function Prefix(capacity: word, alignment: word): (s: seq<byte>)
    ensures |s| == 60
  {
    Widths();
    MAGIC + Version() + ToLe(capacity, 8) + ToLe(alignment, 8) + ToLe(REGIONS, 4)
  }

  predicate Encodable(r: Region) {
    r.kind <= U32_MAX
  }

  function RowOf(r: Region): (s: seq<byte>)
    requires Encodable(r)
    ensures |s| == ROW_BYTES
  {
    Widths();
    ToLe(r.kind, 4) + ToLe(0, 4) + ToLe(r.offset, 8) + ToLe(r.length, 8)
  }

  function RowsOf(regions: seq<Region>): (rows: seq<seq<byte>>)
    requires forall i :: 0 <= i < |regions| ==> Encodable(regions[i])
    ensures |rows| == |regions| && Uniform(rows, ROW_BYTES) && forall i :: 0 <= i < |rows| ==>
      rows[i] == RowOf(regions[i])
  {
    seq(|regions|, i requires 0 <= i < |regions| => RowOf(regions[i]))
  }

  predicate TableFits(regions: seq<Region>) {
    |regions| == REGIONS && forall i :: 0 <= i < |regions| ==> Encodable(regions[i])
  }

  function Encode(capacity: word, alignment: word, regions: seq<Region>): (s: seq<byte>)
    requires TableFits(regions)
  {
    Prefix(capacity, alignment) + Zeros(68) + Join(RowsOf(regions)) + Zeros(120)
  }

  lemma TableSize(regions: seq<Region>)
    requires TableFits(regions)
    ensures |Join(RowsOf(regions))| == 264
  {
    JoinSize(RowsOf(regions), ROW_BYTES);
    TimesIsProduct(REGIONS, ROW_BYTES);
  }

  lemma EncodeSize(capacity: word, alignment: word, regions: seq<Region>)
    requires TableFits(regions)
    ensures |Encode(capacity, alignment, regions)| == IDENTITY_BYTES
  {
    hide Join, Prefix, RowsOf;
    TableSize(regions);
  }

  // ---- Reading

  function Capacity(s: seq<byte>): (v: word)
    requires |s| == IDENTITY_BYTES
  {
    Read8(s, 40)
  }

  function Alignment(s: seq<byte>): (v: word)
    requires |s| == IDENTITY_BYTES
  {
    Read8(s, 48)
  }

  function Table(s: seq<byte>): (t: seq<byte>)
    requires |s| == IDENTITY_BYTES
    ensures |t| == 264
  {
    s[128..392]
  }

  function RegionOf(row: seq<byte>): (r: Region)
    requires |row| == ROW_BYTES
    ensures Encodable(r)
  {
    Region(Read4(row, 0), Read8(row, 8), Read8(row, 16))
  }

  lemma RowInside(i: nat)
    requires i < REGIONS
    ensures Times(i, ROW_BYTES) + ROW_BYTES <= 264
  {
    TimesGrows(i, REGIONS, ROW_BYTES);
    TimesIsProduct(REGIONS, ROW_BYTES);
  }

  function RowAt(s: seq<byte>, i: nat): (row: seq<byte>)
    requires |s| == IDENTITY_BYTES && i < REGIONS
    ensures |row| == ROW_BYTES
  {
    RowInside(i);
    Row(Table(s), ROW_BYTES, i)
  }

  function Regions(s: seq<byte>): (regions: seq<Region>)
    requires |s| == IDENTITY_BYTES
    ensures |regions| == REGIONS && forall i :: 0 <= i < REGIONS ==> regions[i] == RegionOf(RowAt(s, i))
  {
    seq(REGIONS, i requires 0 <= i < REGIONS => RegionOf(RowAt(s, i)))
  }

  /** An identity the decoder accepts: the encoding of what it reads, which tiles the medium. */
  ghost predicate Canonical(s: seq<byte>) {
    && |s| == IDENTITY_BYTES && s == Encode(Capacity(s), Alignment(s), Regions(s))
    && Tiling(Regions(s), Capacity(s), Alignment(s))
  }

  // ---- The fixed bytes

  /** Everything in the record that does not depend on the layout. */
  predicate Framed(s: seq<byte>)
    requires |s| == IDENTITY_BYTES
  {
    && s[..32] == MAGIC && Read2(s, 32) == 1 && Read2(s, 34) == 128 && Read4(s, 36) == IDENTITY_BYTES
    && Read4(s, 56) == REGIONS && AllZero(s[60..128]) && AllZero(s[392..])
  }

  lemma VersionIs(s: seq<byte>)
    requires |s| == 8
    ensures s == Version() <==> Le(s[0..2]) == 1 && Le(s[2..4]) == 128 && Le(s[4..8]) == IDENTITY_BYTES
  {
    hide Le, ToLe;
    Widths();
    assert s == s[0..2] + s[2..4] + s[4..8];
    LeIs(s[0..2], 1);
    LeIs(s[2..4], 128);
    LeIs(s[4..8], IDENTITY_BYTES);
    var a, b, c := ToLe(1, 2), ToLe(128, 2), ToLe(IDENTITY_BYTES, 4);
    if s == Version() {
      assert s[0..2] == a && s[2..4] == b && s[4..8] == c;
    }
  }

  lemma PrefixIs(s: seq<byte>)
    requires |s| == 60
    ensures Le(s[40..48]) <= U64_MAX && Le(s[48..56]) <= U64_MAX
    ensures s == Prefix(Le(s[40..48]), Le(s[48..56])) <==>
      s[..32] == MAGIC && s[32..40] == Version() && Le(s[56..60]) == REGIONS
  {
    hide Le, ToLe, Version;
    Widths();
    var a, b, c, d, e := s[..32], s[32..40], s[40..48], s[48..56], s[56..60];
    ToLeOfLe(c);
    ToLeOfLe(d);
    LeIs(e, REGIONS);
    assert s == a + b + c + d + e;
    var p := Prefix(Le(c), Le(d));
    var n := ToLe(REGIONS, 4);
    assert p == MAGIC + Version() + c + d + n;
    if s == p {
      assert p[..32] == MAGIC && p[32..40] == Version() && p[56..60] == n;
    }
  }

  lemma RowIs(row: seq<byte>)
    requires |row| == ROW_BYTES
    ensures row == RowOf(RegionOf(row)) <==> Le(row[4..8]) == 0
  {
    hide Le, ToLe;
    Widths();
    var a, b, c, d := row[0..4], row[4..8], row[8..16], row[16..24];
    ToLeOfLe(a);
    ToLeOfLe(c);
    ToLeOfLe(d);
    LeIs(b, 0);
    assert row == a + b + c + d;
    var z := ToLe(0, 4);
    assert RowOf(RegionOf(row)) == a + z + c + d;
    if row == a + z + c + d {
      assert row[4..8] == z;
    }
  }

  lemma TableIs(s: seq<byte>)
    requires |s| == IDENTITY_BYTES
    ensures Table(s) == Join(RowsOf(Regions(s))) <==> forall i :: 0 <= i < REGIONS ==> Le(RowAt(s, i)[4..8]) == 0
  {
    hide Le, RowOf, RegionOf, Join, Row, Table;
    var t, rows := Table(s), RowsOf(Regions(s));
    TimesIsProduct(REGIONS, ROW_BYTES);
    forall i | 0 <= i < REGIONS ensures rows[i] == RowAt(s, i) <==> Le(RowAt(s, i)[4..8]) == 0 {
      RowIs(RowAt(s, i));
    }
    if t == Join(rows) {
      forall i | 0 <= i < REGIONS ensures rows[i] == RowAt(s, i) {
        JoinAt(rows, ROW_BYTES, i);
      }
    }
    if forall i :: 0 <= i < REGIONS ==> Le(RowAt(s, i)[4..8]) == 0 {
      forall i | 0 <= i < |rows| ensures IsRow(rows, ROW_BYTES, t, i) {
        RowInside(i);
      }
      JoinRows(rows, ROW_BYTES, t);
    }
  }

  /** Re-encoding what was read reproduces the record exactly when its fixed bytes are right. */
  lemma ReencodesIff(s: seq<byte>)
    requires |s| == IDENTITY_BYTES
    ensures s == Encode(Capacity(s), Alignment(s), Regions(s)) <==>
      Framed(s) && forall i :: 0 <= i < REGIONS ==> Le(RowAt(s, i)[4..8]) == 0
  {
    hide Le, Join, Prefix, RowsOf, RowAt, Version, Zeros, AllZero;
    var p, z, t, y := s[..60], s[60..128], Table(s), s[392..];
    assert s == p + z + t + y;
    PrefixIs(p);
    assert p[..32] == s[..32] && p[40..48] == s[40..48] && p[48..56] == s[48..56] && p[56..60] == s[56..60];
    VersionIs(p[32..40]);
    assert p[32..40][0..2] == s[32..34] && p[32..40][2..4] == s[34..36] && p[32..40][4..8] == s[36..40];
    ZerosAre(z);
    ZerosAre(y);
    TableIs(s);
    TableSize(Regions(s));
    var q, u := Prefix(Capacity(s), Alignment(s)), Join(RowsOf(Regions(s)));
    var e := Encode(Capacity(s), Alignment(s), Regions(s));
    assert e == q + Zeros(68) + u + Zeros(120);
    if s == e {
      assert e[..60] == q && e[60..128] == Zeros(68) && e[128..392] == u && e[392..] == Zeros(120);
    }
  }

  // ---- The round trip

  lemma RowReads(r: Region)
    requires Encodable(r)
    ensures RegionOf(RowOf(r)) == r
  {
    hide Le, ToLe;
    Widths();
    var a, z, c, d := ToLe(r.kind, 4), ToLe(0, 4), ToLe(r.offset, 8), ToLe(r.length, 8);
    var row := RowOf(r);
    assert row == a + z + c + d;
    assert row[0..4] == a && row[8..16] == c && row[16..24] == d;
    LeOfToLe(r.kind, 4);
    LeOfToLe(r.offset, 8);
    LeOfToLe(r.length, 8);
  }

  lemma PrefixReads(capacity: word, alignment: word)
    ensures var p := Prefix(capacity, alignment); Le(p[40..48]) == capacity && Le(p[48..56]) == alignment
  {
    hide Le, ToLe, Version;
    Widths();
    var c, d := ToLe(capacity, 8), ToLe(alignment, 8);
    var p := Prefix(capacity, alignment);
    assert p == MAGIC + Version() + c + d + ToLe(REGIONS, 4);
    assert p[40..48] == c && p[48..56] == d;
    LeOfToLe(capacity, 8);
    LeOfToLe(alignment, 8);
  }

  /** Reading an encoded layout gives back its capacity, alignment and regions. */
  lemma IdentityReads(capacity: word, alignment: word, regions: seq<Region>)
    requires TableFits(regions)
    ensures var s := Encode(capacity, alignment, regions);
      |s| == IDENTITY_BYTES && Capacity(s) == capacity && Alignment(s) == alignment && Regions(s) == regions
  {
    hide Le, Join, Prefix, RowsOf, RegionOf, RowOf, Zeros, Row;
    EncodeSize(capacity, alignment, regions);
    TableSize(regions);
    PrefixReads(capacity, alignment);
    var s, p, rows := Encode(capacity, alignment, regions), Prefix(capacity, alignment), RowsOf(regions);
    assert s[40..48] == p[40..48] && s[48..56] == p[48..56];
    assert Table(s) == Join(rows);
    forall i | 0 <= i < REGIONS ensures Regions(s)[i] == regions[i] {
      JoinAt(rows, ROW_BYTES, i);
      RowReads(regions[i]);
    }
  }

  lemma TilingFits(regions: seq<Region>, capacity: nat, alignment: nat)
    requires Tiling(regions, capacity, alignment)
    ensures TableFits(regions)
  {
    forall i | 0 <= i < |regions| ensures Encodable(regions[i]) {
      assert RegionOk(regions[i], i, alignment);
    }
  }

  /** The encoding of every tiling is an identity the decoder accepts, and yields the same regions. */
  lemma EncodedIsCanonical(capacity: word, alignment: word, regions: seq<Region>)
    requires Tiling(regions, capacity, alignment)
    ensures TableFits(regions) && Canonical(Encode(capacity, alignment, regions))
    ensures Regions(Encode(capacity, alignment, regions)) == regions
  {
    hide Tiling, Encode, Regions, Capacity, Alignment;
    TilingFits(regions, capacity, alignment);
    IdentityReads(capacity, alignment, regions);
  }

  /** Write the record of a layout. */
  method EncodeIdentity(capacity: word, alignment: word, regions: seq<Region>) returns (r: Option<seq<byte>>)
    requires forall i :: 0 <= i < |regions| ==> Encodable(regions[i])
    ensures r.Some? <==> |regions| == REGIONS
    ensures r.Some? ==> r.value == Encode(capacity, alignment, regions)
  {
    hide Join, RowOf, Prefix, Zeros;
    if |regions| != REGIONS {
      return None;
    }
    var table: seq<byte> := [];
    ghost var rows := RowsOf(regions);
    JoinNothing();
    for i := 0 to |regions|
      invariant table == Join(rows[..i])
    {
      JoinNext(rows, i);
      table := table + RowOf(regions[i]);
    }
    assert rows[..|rows|] == rows;
    return Some(Prefix(capacity, alignment) + Zeros(68) + table + Zeros(120));
  }

  /** Validate an identity and derive its regions. */
  method LayoutRegions(s: seq<byte>) returns (r: Option<seq<Region>>)
    ensures r == if Canonical(s) then Some(Regions(s)) else None
  {
    hide Tiling, Encode, RegionOf, RowAt, Row, Framed, Le;
    if |s| != IDENTITY_BYTES {
      return None;
    }
    ReencodesIff(s);
    if !Framed(s) {
      return None;
    }
    var capacity, alignment := Capacity(s), Alignment(s);
    NoAlignment(Regions(s), capacity, alignment);
    if alignment == 0 {
      return None;
    }
    var regions: seq<Region> := [];
    var cursor: nat := 0;
    for i := 0 to REGIONS
      invariant regions == Regions(s)[..i] && Tiled(regions, cursor, alignment)
      invariant cursor <= capacity && forall k :: 0 <= k < i ==> Le(RowAt(s, k)[4..8]) == 0
    {
      var row := RowAt(s, i);
      var flags, region := Le(row[4..8]), RegionOf(row);
      NextTiled(Regions(s), i, cursor, capacity, alignment);
      if !RegionOk(region, i, alignment) || flags != 0 || region.offset != cursor
        || region.offset + region.length > capacity {
        return None;
      }
      regions := regions + [region];
      cursor := cursor + region.length;
    }
    WholeTiled(regions, cursor, capacity, alignment);
    assert regions == Regions(s);
    if cursor != capacity || regions[SLOT_A].length != regions[SLOT_B].length {
      return None;
    }
    return Some(regions);
  }

  /** The regions read so far are good and end at the cursor. */
  ghost predicate Tiled(regions: seq<Region>, cursor: nat, a: nat) {
    && a > 0 && (regions == [] ==> cursor == 0) && (regions != [] ==> regions[0].offset == 0)
    && (forall i :: 0 <= i < |regions| - 1 ==> StepAt(regions, i))
    && (forall i :: 0 <= i < |regions| ==> RegionOk(regions[i], i, a))
    && (regions != [] ==> regions[|regions| - 1].offset + regions[|regions| - 1].length == cursor)
  }

  lemma NoAlignment(regions: seq<Region>, capacity: nat, a: nat)
    ensures a == 0 ==> !Tiling(regions, capacity, a)
  {
  }

  lemma NextTiled(regions: seq<Region>, i: nat, cursor: nat, capacity: nat, a: nat)
    requires |regions| == REGIONS && i < REGIONS && Tiled(regions[..i], cursor, a)
    ensures var r := regions[i];
      if RegionOk(r, i, a) && r.offset == cursor
        && r.offset + r.length <= capacity then Tiled(regions[..i + 1], cursor + r.length, a)
      else !Tiling(regions, capacity, a)
  {
    hide RegionOk;
    var r, head := regions[i], regions[..i + 1];
    if Tiling(regions, capacity, a) {
      if i > 0 {
        assert StepAt(regions, i - 1);
        assert regions[..i][i - 1] == regions[i - 1];
      }
      EndsInside(regions, capacity, a, i);
    }
    if RegionOk(r, i, a) && r.offset == cursor {
      forall k | 0 <= k < |head| - 1 ensures StepAt(head, k) {
        if k + 1 < i { assert StepAt(regions[..i], k); }
      }
      forall k | 0 <= k < |head| ensures RegionOk(head[k], k, a) {
        if k < i { assert RegionOk(regions[..i][k], k, a); }
      }
    }
  }

  lemma {:induction false} EndsInside(regions: seq<Region>, capacity: nat, a: nat, i: nat)
    requires Tiling(regions, capacity, a) && i < REGIONS
    ensures regions[i].offset + regions[i].length <= capacity
    decreases REGIONS - i
  {
    if i < REGIONS - 1 {
      EndsInside(regions, capacity, a, i + 1);
      assert StepAt(regions, i);
    }
  }

  lemma WholeTiled(regions: seq<Region>, cursor: nat, capacity: nat, a: nat)
    requires |regions| == REGIONS && Tiled(regions, cursor, a)
    ensures Tiling(regions, capacity, a) <==> cursor == capacity && regions[SLOT_A].length == regions[SLOT_B].length
  {
  }

  /** Every layout the tool calculates is read back by the decoder with the same regions. */
  method CalculateAndDecode(m: Source) returns (r: Option<seq<Region>>)
    requires Accepted(m)
    ensures r.Some? <==> Fits(m)
    ensures r.Some? ==> Tiling(r.value, m.capacity, m.alignment) && Serves(r.value, m)
  {
    hide Tiling, Encode, Canonical, Regions, Fits, Serves;
    var layout := CalculateLayout(m);
    if layout.None? {
      return None;
    }
    EncodedIsCanonical(m.capacity, m.alignment, layout.value);
    var identity := EncodeIdentity(m.capacity, m.alignment, layout.value);
    ElevenRegions(layout.value);
    r := LayoutRegions(identity.value);
  }

  lemma ElevenRegions(regions: seq<Region>)
    ensures TableFits(regions) ==> |regions| == REGIONS
  {
  }
}
