/** The update manifest: its model, its canonical encoding and the validator that reads it back. */
module UpdateManifest {
  import opened Bytes
  import opened Records

  const HEADER_BYTES: nat := 256
  const COMPONENTS_OFFSET: nat := 512
  const ROW_BYTES: nat := 192
  const MAX_COMPONENTS: nat := 16

  // The magic text in ASCII, padded with zeros.
  const MAGIC: seq<byte> := [82, 73, 66, 79, 78, 45, 85, 80, 68, 65, 84, 69, 45, 77, 65, 78, 73, 70, 69, 83, 84, 45,
    86, 49, 0, 0, 0, 0, 0, 0, 0, 0]

  /** Sizes and numbers of one component, the part of a row behind its four digests. */
  datatype Shape = Shape(offset: word, exact: word, maximum: word, role: nat, destination: nat, format: nat,
    flags: nat, order: nat)

  datatype Component = Component(logical: seq<byte>, content: seq<byte>, destinationId: seq<byte>, contract: seq<byte>,
    shape: Shape)

  /** Generation, rollback and policy scalars of the header. */
  datatype Scalars = Scalars(generation: word, predecessor: word, rollback: word, policy: word, mode: nat)

  /** What the manifest is bound to. */
  datatype Binding = Binding(
    product: seq<byte>, architecture: seq<byte>, platform: seq<byte>, environment: seq<byte>, protocol: seq<byte>,
      domain: seq<byte>,
    major: nat, minor: nat, hardwareMinimum: nat, hardwareMaximum: nat)

  datatype Manifest = Manifest(scalars: Scalars, schema: seq<byte>, binding: Binding, components: seq<Component>)

  // ---- Validity

  predicate Digest(s: seq<byte>) {
    |s| == 32 && s != Zeros(32)
  }

  predicate ShapeOk(s: Shape, i: nat) {
    && 1 <= s.role <= 5 && s.destination == s.role && 1 <= s.format <= 5 && s.flags <= 1 && s.order == i
    && 0 < s.exact <= s.maximum && s.offset + s.exact <= U64_MAX
  }

  predicate ComponentOk(c: Component, i: nat) {
    Digest(c.logical) && Digest(c.content) && Digest(c.destinationId) && Digest(c.contract) && ShapeOk(c.shape, i)
  }

  /** A role that at most one component may have. */
  predicate Singleton(role: nat) {
    role in {1, 3, 5}
  }

  predicate Overlap(s: Shape, t: Shape) {
    s.offset < t.offset + t.exact && t.offset < s.offset + s.exact
  }

  /** Two components of one bundle. */
  predicate Compatible(c: Component, d: Component) {
    && c.logical != d.logical && !(Singleton(c.shape.role) && c.shape.role == d.shape.role)
    && !Overlap(c.shape, d.shape)
  }

  ghost predicate ComponentsOk(cs: seq<Component>) {
    && (forall i :: 0 <= i < |cs| ==> ComponentOk(cs[i], i))
    && (forall i, j :: 0 <= i < j < |cs| ==> Compatible(cs[i], cs[j]))
  }

  predicate ScalarsOk(s: Scalars) {
    s.generation != 0 && s.predecessor < s.generation && 1 <= s.mode <= 4
  }

  predicate BindingOk(b: Binding) {
    && Digest(b.product) && Digest(b.architecture) && Digest(b.platform) && Digest(b.environment)
    && Digest(b.protocol) && Digest(b.domain) && b.major < 0x1_0000 && b.minor < 0x1_0000
    && b.hardwareMinimum <= b.hardwareMaximum <= U32_MAX
  }

  /** The models the source parser can produce, with a generation above its predecessor. */
  ghost predicate Valid(m: Manifest) {
    && ScalarsOk(m.scalars) && Digest(m.schema) && BindingOk(m.binding)
    && 1 <= |m.components| <= MAX_COMPONENTS && ComponentsOk(m.components)
  }

  // ---- Sizes that encoding needs

  predicate ShapeFits(s: Shape) {
    s.role < 0x1_0000 && s.destination < 0x1_0000 && s.format < 0x1_0000 && s.flags < 0x1_0000 && s.order <= U32_MAX
  }

  predicate ComponentFits(c: Component) {
    |c.logical| == 32 && |c.content| == 32 && |c.destinationId| == 32 && |c.contract| == 32 && ShapeFits(c.shape)
  }

  predicate BindingFits(b: Binding) {
    && |b.product| == 32 && |b.architecture| == 32 && |b.platform| == 32 && |b.environment| == 32
    && |b.protocol| == 32 && |b.domain| == 32 && b.major < 0x1_0000 && b.minor < 0x1_0000
    && b.hardwareMinimum <= U32_MAX && b.hardwareMaximum <= U32_MAX
  }

  predicate Fits(m: Manifest) {
    && m.scalars.mode < 0x1_0000 && |m.schema| == 32 && BindingFits(m.binding)
    && |m.components| <= MAX_COMPONENTS && forall i :: 0 <= i < |m.components| ==> ComponentFits(m.components[i])
  }

  lemma ValidFits(m: Manifest)
    requires Valid(m)
    ensures Fits(m)
  {
    forall i | 0 <= i < |m.components| ensures ComponentFits(m.components[i]) {
      assert ComponentOk(m.components[i], i);
    }
  }

  // ---- Encoding

  /** Version 1.0 and the header size, then the total size. */
  function Opening(total: word): (s: seq<byte>)
    ensures |s| == 16
  {
    Widths();
    ToLe(1, 2) + ToLe(0, 2) + ToLe(HEADER_BYTES, 4) + ToLe(total, 8)
  }

  function Counts(count: nat): (s: seq<byte>)
    requires count <= U32_MAX
    ensures |s| == 8
  {
    Widths();
    ToLe(2, 4) + ToLe(count, 4)
  }

  function Generations(s: Scalars): (r: seq<byte>)
    ensures |r| == 32
  {
    Widths();
    ToLe(s.generation, 8) + ToLe(s.predecessor, 8) + ToLe(s.rollback, 8) + ToLe(s.policy, 8)
  }

  /** SHA-256, Ed25519, the mode and no flags. */
  function Algorithms(mode: nat): (s: seq<byte>)
    requires mode < 0x1_0000
    ensures |s| == 8
  {
    Widths();
    ToLe(1, 2) + ToLe(1, 2) + ToLe(mode, 2) + ToLe(0, 2)
  }

  /** One section directory entry. */
  function Section(kind: nat, offset: word, size: word, count: nat, row: nat): (s: seq<byte>)
    requires kind <= U32_MAX && count <= U32_MAX && row <= U32_MAX
    ensures |s| == 32
  {
    Widths();
    ToLe(kind, 4) + ToLe(0, 4) + ToLe(offset, 8) + ToLe(size, 8) + ToLe(count, 4) + ToLe(row, 4)
  }

  function Total(count: nat): (n: nat)
    ensures n == COMPONENTS_OFFSET + ROW_BYTES * count
  {
    COMPONENTS_OFFSET + ROW_BYTES * count
  }

  function Directory(count: nat): (s: seq<byte>)
    requires count <= MAX_COMPONENTS
    ensures |s| == 128
  {
    Section(1, 256, 256, 1, 256) + Section(2, COMPONENTS_OFFSET, ROW_BYTES * count, count, ROW_BYTES) + Zeros(64)
  }

  function Header(s: Scalars, schema: seq<byte>, count: nat): (r: seq<byte>)
    requires s.mode < 0x1_0000 && |schema| == 32 && count <= MAX_COMPONENTS
    ensures |r| == 256
  {
    MAGIC + Opening(Total(count)) + Counts(count) + Generations(s) + Algorithms(s.mode) + schema + Directory(count)
  }

  function Limits(b: Binding): (s: seq<byte>)
    requires BindingFits(b)
    ensures |s| == 12
  {
    Widths();
    ToLe(b.major, 2) + ToLe(b.minor, 2) + ToLe(b.hardwareMinimum, 4) + ToLe(b.hardwareMaximum, 4)
  }

  function BindingBytes(b: Binding): (s: seq<byte>)
    requires BindingFits(b)
    ensures |s| == 256
  {
    b.product + b.architecture + b.platform + b.environment + b.protocol + b.domain + Limits(b) + Zeros(52)
  }

  function Ranges(s: Shape): (r: seq<byte>)
    ensures |r| == 24
  {
    Widths();
    ToLe(s.offset, 8) + ToLe(s.exact, 8) + ToLe(s.maximum, 8)
  }

  function Classes(s: Shape): (r: seq<byte>)
    requires ShapeFits(s)
    ensures |r| == 12
  {
    Widths();
    ToLe(s.role, 2) + ToLe(s.destination, 2) + ToLe(s.format, 2) + ToLe(s.flags, 2) + ToLe(s.order, 4)
  }

  function RowOf(c: Component): (s: seq<byte>)
    requires ComponentFits(c)
    ensures |s| == ROW_BYTES
  {
    c.logical + c.content + c.destinationId + c.contract + Ranges(c.shape) + Classes(c.shape) + Zeros(28)
  }

  function RowsOf(cs: seq<Component>): (rows: seq<seq<byte>>)
    requires forall i :: 0 <= i < |cs| ==> ComponentFits(cs[i])
    ensures |rows| == |cs| && Uniform(rows, ROW_BYTES) && forall i :: 0 <= i < |rows| ==> rows[i] == RowOf(cs[i])
  {
    seq(|cs|, i requires 0 <= i < |cs| => RowOf(cs[i]))
  }

  /** The canonical bytes of a manifest. */
  function Encode(m: Manifest): (s: seq<byte>)
    requires Fits(m)
  {
    Header(m.scalars, m.schema, |m.components|) + BindingBytes(m.binding) + Join(RowsOf(m.components))
  }

  lemma EncodeSize(m: Manifest)
    requires Fits(m)
    ensures |Encode(m)| == Total(|m.components|)
  {
    hide Header, BindingBytes, RowsOf, Join;
    JoinSize(RowsOf(m.components), ROW_BYTES);
    TimesIsProduct(|m.components|, ROW_BYTES);
  }

  // ---- Reading

  function ReadScalars(h: seq<byte>): (s: Scalars)
    requires |h| == 256
    ensures s.mode < 0x1_0000
  {
    Scalars(Read8(h, 56), Read8(h, 64), Read8(h, 72), Read8(h, 80), Read2(h, 92))
  }

  function ReadBinding(b: seq<byte>): (r: Binding)
    requires |b| == 256
    ensures BindingFits(r)
  {
    Binding(b[..32], b[32..64], b[64..96], b[96..128], b[128..160], b[160..192],
            Read2(b, 192), Read2(b, 194), Read4(b, 196), Read4(b, 200))
  }

  function ReadShape(row: seq<byte>): (s: Shape)
    requires |row| == ROW_BYTES
    ensures ShapeFits(s)
  {
    Shape(Read8(row, 128), Read8(row, 136), Read8(row, 144), Read2(row, 152), Read2(row, 154), Read2(row, 156),
      Read2(row, 158), Read4(row, 160))
  }

  function ReadComponent(row: seq<byte>): (c: Component)
    requires |row| == ROW_BYTES
    ensures ComponentFits(c)
  {
    Component(row[..32], row[32..64], row[64..96], row[96..128], ReadShape(row))
  }

  /** The number of components the length stands for. */
  predicate Sized(data: seq<byte>, count: nat) {
    count <= MAX_COMPONENTS && |data| == Total(count)
  }

  lemma RowInside(count: nat, i: nat)
    requires i < count
    ensures Times(i, ROW_BYTES) + ROW_BYTES <= ROW_BYTES * count
  {
    TimesGrows(i, count, ROW_BYTES);
    TimesIsProduct(count, ROW_BYTES);
  }

  function RowAt(data: seq<byte>, count: nat, i: nat): (row: seq<byte>)
    requires Sized(data, count) && i < count
    ensures |row| == ROW_BYTES
  {
    RowInside(count, i);
    Row(data[COMPONENTS_OFFSET..], ROW_BYTES, i)
  }

  function ReadComponents(data: seq<byte>, count: nat): (cs: seq<Component>)
    requires Sized(data, count)
    ensures |cs| == count && forall i :: 0 <= i < count ==> cs[i] == ReadComponent(RowAt(data, count, i))
    ensures forall i :: 0 <= i < count ==> ComponentFits(cs[i])
  {
    seq(count, i requires 0 <= i < count => ReadComponent(RowAt(data, count, i)))
  }

  function Read(data: seq<byte>, count: nat): (m: Manifest)
    requires Sized(data, count)
    ensures Fits(m)
  {
    Manifest(ReadScalars(data[..256]), data[96..128], ReadBinding(data[256..512]), ReadComponents(data, count))
  }

  // ---- The fixed bytes, piece by piece

  lemma OpeningIs(s: seq<byte>, total: word)
    requires |s| == 16
    ensures s == Opening(total) <==>
      Read2(s, 0) == 1 && Read2(s, 2) == 0 && Read4(s, 4) == HEADER_BYTES && Read8(s, 8) == total
  {
    hide Le, ToLe;
    Widths();
    var a, b, c, d := s[0..2], s[2..4], s[4..8], s[8..16];
    assert s == a + b + c + d;
    LeIs(a, 1);
    LeIs(b, 0);
    LeIs(c, HEADER_BYTES);
    LeIs(d, total);
    var w, x, y, z := ToLe(1, 2), ToLe(0, 2), ToLe(HEADER_BYTES, 4), ToLe(total, 8);
    if s == w + x + y + z {
      assert s[0..2] == w && s[2..4] == x && s[4..8] == y && s[8..16] == z;
    }
  }

  lemma CountsIs(s: seq<byte>, count: nat)
    requires |s| == 8 && count <= U32_MAX
    ensures s == Counts(count) <==> Read4(s, 0) == 2 && Read4(s, 4) == count
  {
    hide Le, ToLe;
    Widths();
    var a, b := s[0..4], s[4..8];
    assert s == a + b;
    LeIs(a, 2);
    LeIs(b, count);
    var w, x := ToLe(2, 4), ToLe(count, 4);
    if s == w + x {
      assert s[0..4] == w && s[4..8] == x;
    }
  }

  lemma GenerationsIs(s: seq<byte>, mode: nat)
    requires |s| == 32
    ensures s == Generations(Scalars(Read8(s, 0), Read8(s, 8), Read8(s, 16), Read8(s, 24), mode))
  {
    hide Le, ToLe;
    Widths();
    var a, b, c, d := s[0..8], s[8..16], s[16..24], s[24..32];
    assert s == a + b + c + d;
    ToLeOfLe(a);
    ToLeOfLe(b);
    ToLeOfLe(c);
    ToLeOfLe(d);
  }

  lemma AlgorithmsIs(s: seq<byte>)
    requires |s| == 8
    ensures s == Algorithms(Read2(s, 4)) <==> Read2(s, 0) == 1 && Read2(s, 2) == 1 && Read2(s, 6) == 0
  {
    hide Le, ToLe;
    Widths();
    var a, b, c, d := s[0..2], s[2..4], s[4..6], s[6..8];
    assert s == a + b + c + d;
    LeIs(a, 1);
    LeIs(b, 1);
    ToLeOfLe(c);
    LeIs(d, 0);
    var w, z := ToLe(1, 2), ToLe(0, 2);
    if s == w + w + c + z {
      assert s[0..2] == w && s[2..4] == w && s[6..8] == z;
    }
  }

  /** Everything fixed in the 128 bytes of the directory. */
  predicate DirectoryOk(s: seq<byte>, count: nat)
    requires |s| == 128 && count <= MAX_COMPONENTS
  {
    && s[..32] == Section(1, 256, 256, 1, 256)
    && s[32..64] == Section(2, COMPONENTS_OFFSET, ROW_BYTES * count, count, ROW_BYTES) && AllZero(s[64..])
  }

  lemma DirectoryIs(s: seq<byte>, count: nat)
    requires |s| == 128 && count <= MAX_COMPONENTS
    ensures s == Directory(count) <==> DirectoryOk(s, count)
  {
    hide Section, Zeros, AllZero;
    var a, b, c := s[..32], s[32..64], s[64..];
    assert s == a + b + c;
    ZerosAre(c);
    var x, y := Section(1, 256, 256, 1, 256), Section(2, COMPONENTS_OFFSET, ROW_BYTES * count, count, ROW_BYTES);
    if s == x + y + Zeros(64) {
      assert s[..32] == x && s[32..64] == y && s[64..] == Zeros(64);
    }
  }

  /** Everything fixed in the header. */
  predicate HeaderOk(h: seq<byte>, count: nat)
    requires |h| == 256 && count <= MAX_COMPONENTS
  {
    && h[..32] == MAGIC && Read2(h, 32) == 1 && Read2(h, 34) == 0 && Read4(h, 36) == HEADER_BYTES
       && Read8(h, 40) == Total(count)
    && Read4(h, 48) == 2 && Read4(h, 52) == count && Read2(h, 88) == 1 && Read2(h, 90) == 1 && Read2(h, 94) == 0
    && DirectoryOk(h[128..], count)
  }

  lemma HeaderIs(h: seq<byte>, count: nat)
    requires |h| == 256 && count <= MAX_COMPONENTS
    ensures h == Header(ReadScalars(h), h[96..128], count) <==> HeaderOk(h, count)
  {
    hide Le, Opening, Counts, Generations, Algorithms, Directory, DirectoryOk;
    var a, b, c, d, e, f, g := h[..32], h[32..48], h[48..56], h[56..88], h[88..96], h[96..128], h[128..];
    assert h == a + b + c + d + e + f + g;
    assert b[0..2] == h[32..34] && b[2..4] == h[34..36] && b[4..8] == h[36..40] && b[8..16] == h[40..48];
    assert c[0..4] == h[48..52] && c[4..8] == h[52..56];
    assert d[0..8] == h[56..64] && d[8..16] == h[64..72] && d[16..24] == h[72..80] && d[24..32] == h[80..88];
    assert e[0..2] == h[88..90] && e[2..4] == h[90..92] && e[4..6] == h[92..94] && e[6..8] == h[94..96];
    OpeningIs(b, Total(count));
    CountsIs(c, count);
    GenerationsIs(d, Read2(h, 92));
    AlgorithmsIs(e);
    DirectoryIs(g, count);
    HeaderParts(h, ReadScalars(h), count);
  }

  /** A header is equal to its encoding piece by piece. */
  lemma HeaderParts(h: seq<byte>, s: Scalars, count: nat)
    requires |h| == 256 && count <= MAX_COMPONENTS && s.mode < 0x1_0000
    ensures h == Header(s, h[96..128], count) <==>
      && h[..32] == MAGIC && h[32..48] == Opening(Total(count)) && h[48..56] == Counts(count)
      && h[56..88] == Generations(s) && h[88..96] == Algorithms(s.mode) && h[128..] == Directory(count)
  {
    hide Opening, Counts, Generations, Algorithms, Directory;
    var a, b, c, d, e, f, g := h[..32], h[32..48], h[48..56], h[56..88], h[88..96], h[96..128], h[128..];
    assert h == a + b + c + d + e + f + g;
    var t := Header(s, f, count);
    if h == t {
      assert t[..32] == MAGIC && t[32..48] == Opening(Total(count)) && t[48..56] == Counts(count);
      assert t[56..88] == Generations(s) && t[88..96] == Algorithms(s.mode) && t[128..] == Directory(count);
    }
  }

  lemma LimitsAre(s: seq<byte>, b: Binding)
    requires |s| == 12 && BindingFits(b)
    requires b.major == Read2(s, 0) && b.minor == Read2(s, 2) && b.hardwareMinimum == Read4(s, 4)
      && b.hardwareMaximum == Read4(s, 8)
    ensures s == Limits(b)
  {
    hide Le, ToLe;
    Widths();
    var w, x, y, z := s[0..2], s[2..4], s[4..8], s[8..12];
    assert s == w + x + y + z;
    ToLeOfLe(w);
    ToLeOfLe(x);
    ToLeOfLe(y);
    ToLeOfLe(z);
  }

  lemma BindingIs(s: seq<byte>)
    requires |s| == 256
    ensures s == BindingBytes(ReadBinding(s)) <==> AllZero(s[204..])
  {
    hide Le, Limits, Zeros, AllZero;
    var b, l, z := ReadBinding(s), s[192..204], s[204..];
    assert l[0..2] == s[192..194] && l[2..4] == s[194..196] && l[4..8] == s[196..200] && l[8..12] == s[200..204];
    LimitsAre(l, b);
    ZerosAre(z);
    assert s == b.product + b.architecture + b.platform + b.environment + b.protocol + b.domain + l + z;
    if s == BindingBytes(b) {
      assert BindingBytes(b)[204..] == Zeros(52);
    }
  }

  lemma RangesAre(s: seq<byte>, h: Shape)
    requires |s| == 24 && h.offset == Read8(s, 0) && h.exact == Read8(s, 8) && h.maximum == Read8(s, 16)
    ensures s == Ranges(h)
  {
    hide Le, ToLe;
    Widths();
    var a, b, c := s[0..8], s[8..16], s[16..24];
    assert s == a + b + c;
    ToLeOfLe(a);
    ToLeOfLe(b);
    ToLeOfLe(c);
  }

  lemma ClassesAre(s: seq<byte>, h: Shape)
    requires |s| == 12 && ShapeFits(h) && h.role == Read2(s, 0) && h.destination == Read2(s, 2)
      && h.format == Read2(s, 4)
    requires h.flags == Read2(s, 6) && h.order == Read4(s, 8)
    ensures s == Classes(h)
  {
    hide Le, ToLe;
    Widths();
    var a, b, c, d, e := s[0..2], s[2..4], s[4..6], s[6..8], s[8..12];
    assert s == a + b + c + d + e;
    ToLeOfLe(a);
    ToLeOfLe(b);
    ToLeOfLe(c);
    ToLeOfLe(d);
    ToLeOfLe(e);
  }

  lemma Sub(s: seq<byte>, a: nat, b: nat, i: nat, j: nat)
    requires i <= j && a + j <= b <= |s|
    ensures s[a..b][i..j] == s[a + i..a + j]
  {
    var x, y := s[a..b][i..j], s[a + i..a + j];
    assert |x| == |y| && forall k :: 0 <= k < |x| ==> x[k] == y[k];
  }

  lemma RowIs(row: seq<byte>)
    requires |row| == ROW_BYTES
    ensures row == RowOf(ReadComponent(row)) <==> AllZero(row[164..])
  {
    hide Le, Ranges, Classes, Zeros, AllZero;
    var c, r, k, z := ReadComponent(row), row[128..152], row[152..164], row[164..];
    assert r[0..8] == row[128..136] && r[8..16] == row[136..144] && r[16..24] == row[144..152];
    Sub(row, 152, 164, 0, 2);
    Sub(row, 152, 164, 2, 4);
    Sub(row, 152, 164, 4, 6);
    Sub(row, 152, 164, 6, 8);
    Sub(row, 152, 164, 8, 12);
    RangesAre(r, c.shape);
    ClassesAre(k, c.shape);
    ZerosAre(z);
    assert row == c.logical + c.content + c.destinationId + c.contract + r + k + z;
    if row == RowOf(c) {
      assert RowOf(c)[164..] == Zeros(28);
    }
  }

  ghost predicate PaddedRows(data: seq<byte>, count: nat)
    requires Sized(data, count)
  {
    forall i :: 0 <= i < count ==> AllZero(RowAt(data, count, i)[164..])
  }

  lemma TableIs(data: seq<byte>, count: nat)
    requires Sized(data, count)
    ensures data[COMPONENTS_OFFSET..] == Join(RowsOf(ReadComponents(data, count))) <==> PaddedRows(data, count)
  {
    hide RowOf, ReadComponent, Join, Row, AllZero, ComponentFits;
    var t, rows := data[COMPONENTS_OFFSET..], RowsOf(ReadComponents(data, count));
    TimesIsProduct(count, ROW_BYTES);
    forall i | 0 <= i < count ensures rows[i] == RowAt(data, count, i) <==> AllZero(RowAt(data, count, i)[164..]) {
      RowIs(RowAt(data, count, i));
    }
    if t == Join(rows) {
      forall i | 0 <= i < count ensures rows[i] == RowAt(data, count, i) {
        JoinAt(rows, ROW_BYTES, i);
      }
    }
    if PaddedRows(data, count) {
      forall i | 0 <= i < |rows| ensures IsRow(rows, ROW_BYTES, t, i) {
        RowInside(count, i);
      }
      JoinRows(rows, ROW_BYTES, t);
    }
  }

  /** Everything in the bytes that does not depend on the model. */
  ghost predicate Framed(data: seq<byte>, count: nat)
    requires Sized(data, count)
  {
    HeaderOk(data[..256], count) && AllZero(data[256..512][204..]) && PaddedRows(data, count)
  }

  /** Re-encoding what was read reproduces the bytes exactly when the fixed bytes are right. */
  lemma ReencodesIff(data: seq<byte>, count: nat)
    requires Sized(data, count)
    ensures data == Encode(Read(data, count)) <==> Framed(data, count)
  {
    hide Header, HeaderOk, ReadScalars, ReadBinding, BindingBytes, RowsOf, Join, AllZero, PaddedRows, ComponentFits,
      BindingFits;
    var h, b, t := data[..256], data[256..512], data[COMPONENTS_OFFSET..];
    assert data == h + b + t && h[96..128] == data[96..128];
    HeaderIs(h, count);
    BindingIs(b);
    TableIs(data, count);
    var m := Read(data, count);
    var x, y, z := Header(m.scalars, m.schema, count), BindingBytes(m.binding), Join(RowsOf(m.components));
    var e := Encode(m);
    assert e == x + y + z;
    if data == e {
      assert e[..256] == x && e[256..512] == y && e[512..] == z;
    }
  }

  // ---- The round trip

  lemma GenerationsRead(s: Scalars)
    ensures var r := Generations(s);
      Read8(r, 0) == s.generation && Read8(r, 8) == s.predecessor && Read8(r, 16) == s.rollback
        && Read8(r, 24) == s.policy
  {
    hide Le, ToLe;
    Widths();
    var a, b, c, d := ToLe(s.generation, 8), ToLe(s.predecessor, 8), ToLe(s.rollback, 8), ToLe(s.policy, 8);
    var r := Generations(s);
    assert r[0..8] == a && r[8..16] == b && r[16..24] == c && r[24..32] == d;
    LeOfToLe(s.generation, 8);
    LeOfToLe(s.predecessor, 8);
    LeOfToLe(s.rollback, 8);
    LeOfToLe(s.policy, 8);
  }

  lemma AlgorithmsRead(mode: nat)
    requires mode < 0x1_0000
    ensures Read2(Algorithms(mode), 4) == mode
  {
    hide Le, ToLe;
    Widths();
    var w, c, z := ToLe(1, 2), ToLe(mode, 2), ToLe(0, 2);
    assert Algorithms(mode) == w + w + c + z;
    assert (w + w + c + z)[4..6] == c;
    LeOfToLe(mode, 2);
  }

  lemma HeaderReads(s: Scalars, schema: seq<byte>, count: nat)
    requires s.mode < 0x1_0000 && |schema| == 32 && count <= MAX_COMPONENTS
    ensures var h := Header(s, schema, count); ReadScalars(h) == s && h[96..128] == schema
  {
    hide Le, Opening, Counts, Generations, Algorithms, Directory;
    var h, g, a := Header(s, schema, count), Generations(s), Algorithms(s.mode);
    assert h[96..128] == schema && h[56..88] == g && h[88..96] == a;
    GenerationsRead(s);
    AlgorithmsRead(s.mode);
    Sub(h, 56, 88, 0, 8);
    Sub(h, 56, 88, 8, 16);
    Sub(h, 56, 88, 16, 24);
    Sub(h, 56, 88, 24, 32);
    Sub(h, 88, 96, 4, 6);
  }

  lemma LimitsRead(b: Binding)
    requires BindingFits(b)
    ensures var l := Limits(b);
      Read2(l, 0) == b.major && Read2(l, 2) == b.minor && Read4(l, 4) == b.hardwareMinimum
        && Read4(l, 8) == b.hardwareMaximum
  {
    hide Le, ToLe;
    Widths();
    var w, x, y, z := ToLe(b.major, 2), ToLe(b.minor, 2), ToLe(b.hardwareMinimum, 4), ToLe(b.hardwareMaximum, 4);
    var l := Limits(b);
    assert l[0..2] == w && l[2..4] == x && l[4..8] == y && l[8..12] == z;
    LeOfToLe(b.major, 2);
    LeOfToLe(b.minor, 2);
    LeOfToLe(b.hardwareMinimum, 4);
    LeOfToLe(b.hardwareMaximum, 4);
  }

  lemma BindingReads(b: Binding)
    requires BindingFits(b)
    ensures ReadBinding(BindingBytes(b)) == b
  {
    hide Le, Limits, Zeros;
    var s, l := BindingBytes(b), Limits(b);
    assert s[..32] == b.product && s[32..64] == b.architecture && s[64..96] == b.platform;
    assert s[96..128] == b.environment && s[128..160] == b.protocol && s[160..192] == b.domain && s[192..204] == l;
    LimitsRead(b);
    Sub(s, 192, 204, 0, 2);
    Sub(s, 192, 204, 2, 4);
    Sub(s, 192, 204, 4, 8);
    Sub(s, 192, 204, 8, 12);
  }

  lemma RangesRead(h: Shape)
    ensures var r := Ranges(h); Read8(r, 0) == h.offset && Read8(r, 8) == h.exact && Read8(r, 16) == h.maximum
  {
    hide Le, ToLe;
    Widths();
    var a, b, c := ToLe(h.offset, 8), ToLe(h.exact, 8), ToLe(h.maximum, 8);
    var r := Ranges(h);
    assert r[0..8] == a && r[8..16] == b && r[16..24] == c;
    LeOfToLe(h.offset, 8);
    LeOfToLe(h.exact, 8);
    LeOfToLe(h.maximum, 8);
  }

  lemma ClassesRead(h: Shape)
    requires ShapeFits(h)
    ensures var k := Classes(h);
      Read2(k, 0) == h.role && Read2(k, 2) == h.destination && Read2(k, 4) == h.format && Read2(k, 6) == h.flags
        && Read4(k, 8) == h.order
  {
    hide Le, ToLe;
    Widths();
    var a, b, c, d, e := ToLe(h.role, 2), ToLe(h.destination, 2), ToLe(h.format, 2), ToLe(h.flags, 2), ToLe(h.order, 4);
    var k := Classes(h);
    assert k == a + b + c + d + e;
    assert k[0..2] == a && k[2..4] == b && k[4..6] == c && k[6..8] == d && k[8..12] == e;
    LeOfToLe(h.role, 2);
    LeOfToLe(h.destination, 2);
    LeOfToLe(h.format, 2);
    LeOfToLe(h.flags, 2);
    LeOfToLe(h.order, 4);
  }

  lemma RowReads(c: Component)
    requires ComponentFits(c)
    ensures ReadComponent(RowOf(c)) == c
  {
    hide Le, Ranges, Classes, Zeros, Read2, Read4, Read8;
    var row, h := RowOf(c), c.shape;
    assert row[..32] == c.logical && row[32..64] == c.content && row[64..96] == c.destinationId
      && row[96..128] == c.contract;
    assert row[128..152] == Ranges(h) && row[152..164] == Classes(h);
    RangesRead(h);
    ClassesRead(h);
    SubRead8(row, 128, 152, 0);
    SubRead8(row, 128, 152, 8);
    SubRead8(row, 128, 152, 16);
    SubRead2(row, 152, 164, 0);
    SubRead2(row, 152, 164, 2);
    SubRead2(row, 152, 164, 4);
    SubRead2(row, 152, 164, 6);
    SubRead4(row, 152, 164, 8);
  }

  lemma SubRead8(s: seq<byte>, a: nat, b: nat, i: nat)
    requires a + i + 8 <= b <= |s|
    ensures Read8(s[a..b], i) == Read8(s, a + i)
  {
    Sub(s, a, b, i, i + 8);
  }

  lemma SubRead4(s: seq<byte>, a: nat, b: nat, i: nat)
    requires a + i + 4 <= b <= |s|
    ensures Read4(s[a..b], i) == Read4(s, a + i)
  {
    Sub(s, a, b, i, i + 4);
  }

  lemma SubRead2(s: seq<byte>, a: nat, b: nat, i: nat)
    requires a + i + 2 <= b <= |s|
    ensures Read2(s[a..b], i) == Read2(s, a + i)
  {
    Sub(s, a, b, i, i + 2);
  }

  /** Reading an encoded manifest gives back every field. */
  lemma EncodeReads(m: Manifest)
    requires Fits(m)
    ensures Sized(Encode(m), |m.components|) && Read(Encode(m), |m.components|) == m
  {
    hide Header, ReadScalars, ReadBinding, BindingBytes, RowsOf, RowOf, ReadComponent, Join, Row, ComponentFits,
      BindingFits;
    EncodeSize(m);
    var data, n := Encode(m), |m.components|;
    var x, y, rows := Header(m.scalars, m.schema, n), BindingBytes(m.binding), RowsOf(m.components);
    assert data == x + y + Join(rows);
    assert data[..256] == x && data[256..512] == y && data[512..] == Join(rows);
    assert data[96..128] == x[96..128];
    HeaderReads(m.scalars, m.schema, n);
    BindingReads(m.binding);
    forall i | 0 <= i < n ensures ReadComponents(data, n)[i] == m.components[i] {
      JoinAt(rows, ROW_BYTES, i);
      RowReads(m.components[i]);
    }
  }

  /** The bytes the validator accepts: the encoding of the valid model read from them. */
  ghost predicate Canonical(data: seq<byte>, count: nat) {
    Sized(data, count) && Valid(Read(data, count)) && data == Encode(Read(data, count))
  }

  /** Encoding and reading are a bijection between valid models and accepted byte strings. */
  lemma CodecIsBijective(m: Manifest)
    requires Valid(m)
    ensures Fits(m) && Canonical(Encode(m), |m.components|) && Read(Encode(m), |m.components|) == m
  {
    hide Valid, Encode, Read;
    ValidFits(m);
    EncodeReads(m);
  }

  // ---- The validator

  /** The identities and singleton roles seen so far. */
  ghost predicate Seen(cs: seq<Component>, ids: set<seq<byte>>, roles: set<nat>) {
    && (forall x :: x in ids <==> exists i :: 0 <= i < |cs| && cs[i].logical == x)
    && (forall r :: r in roles <==> Singleton(r) && exists i :: 0 <= i < |cs| && cs[i].shape.role == r)
  }

  ghost predicate HitsAny(cs: seq<Component>, s: Shape) {
    exists i :: 0 <= i < |cs| && Overlap(s, cs[i].shape)
  }

  lemma SeenNext(cs: seq<Component>, c: Component, ids: set<seq<byte>>, roles: set<nat>)
    requires Seen(cs, ids, roles)
    ensures Seen(cs + [c], ids + {c.logical}, if Singleton(c.shape.role) then roles + {c.shape.role} else roles)
  {
    hide Singleton;
    var all := cs + [c];
    assert all[|cs|] == c && forall i :: 0 <= i < |cs| ==> all[i] == cs[i];
    forall x ensures x in ids + {c.logical} <==> exists i :: 0 <= i < |all| && all[i].logical == x {
      if x in ids {
        var i :| 0 <= i < |cs| && cs[i].logical == x;
        assert all[i].logical == x;
      }
    }
    var more := if Singleton(c.shape.role) then roles + {c.shape.role} else roles;
    forall r ensures r in more <==> Singleton(r) && exists i :: 0 <= i < |all| && all[i].shape.role == r {
      if r in roles {
        var i :| 0 <= i < |cs| && cs[i].shape.role == r;
        assert all[i].shape.role == r;
      }
    }
  }

  /** One more component: it fits the ones before it exactly when nothing it brings was seen or overlaps. */
  lemma ComponentsNext(cs: seq<Component>, c: Component, ids: set<seq<byte>>, roles: set<nat>)
    requires ComponentsOk(cs) && Seen(cs, ids, roles)
    ensures ComponentsOk(cs + [c]) <==>
      ComponentOk(c, |cs|) && c.logical !in ids && c.shape.role !in roles && !HitsAny(cs, c.shape)
  {
    hide ComponentOk, Singleton, Overlap;
    var all := cs + [c];
    assert all[|cs|] == c && forall i :: 0 <= i < |cs| ==> all[i] == cs[i];
    OverlapSwaps();
    if ComponentsOk(all) {
      forall i | 0 <= i < |cs| ensures Compatible(cs[i], c) {
        assert Compatible(all[i], all[|cs|]);
      }
    }
  }

  lemma OverlapSwaps()
    ensures forall s: Shape, t: Shape :: Overlap(s, t) <==> Overlap(t, s)
  {
  }

  lemma ComponentsPrefix(cs: seq<Component>, n: nat)
    requires n <= |cs| && ComponentsOk(cs)
    ensures ComponentsOk(cs[..n])
  {
    hide ComponentOk, Compatible;
    forall i | 0 <= i < n ensures ComponentOk(cs[..n][i], i) {
      assert ComponentOk(cs[i], i);
    }
    forall i, j | 0 <= i < j < n ensures Compatible(cs[..n][i], cs[..n][j]) {
      assert Compatible(cs[i], cs[j]);
    }
  }

  method FindOverlap(cs: seq<Component>, s: Shape) returns (hit: bool)
    ensures hit <==> HitsAny(cs, s)
  {
    for i := 0 to |cs|
      invariant forall k :: 0 <= k < i ==> !Overlap(s, cs[k].shape)
    {
      if s.offset < cs[i].shape.offset + cs[i].shape.exact && cs[i].shape.offset < s.offset + s.exact {
        return true;
      }
    }
    return false;
  }

  /** Read the component rows one by one, refusing the first bad one. */
  method ReadRows(data: seq<byte>, count: nat) returns (r: Option<seq<Component>>)
    requires Sized(data, count)
    ensures r.Some? <==> ComponentsOk(ReadComponents(data, count)) && PaddedRows(data, count)
    ensures r.Some? ==> r.value == ReadComponents(data, count)
  {
    hide ComponentOk, ComponentsOk, Seen, AllZero, RowAt, ReadComponent, HitsAny, ComponentFits;
    ghost var all := ReadComponents(data, count);
    var components: seq<Component> := [];
    var ids: set<seq<byte>>, roles: set<nat> := {}, {};
    NothingSeen();
    for i := 0 to count
      invariant components == all[..i] && ComponentsOk(components) && Seen(components, ids, roles)
      invariant forall k :: 0 <= k < i ==> AllZero(RowAt(data, count, k)[164..])
    {
      var row := RowAt(data, count, i);
      var c := ReadComponent(row);
      ghost var next := all[..i + 1];
      assert next == components + [c];
      ComponentsNext(components, c, ids, roles);
      SeenNext(components, c, ids, roles);
      if ComponentsOk(all) { ComponentsPrefix(all, i + 1); }
      if !ComponentOk(c, i) || !AllZero(row[164..]) || c.logical in ids || c.shape.role in roles {
        return None;
      }
      var hit := FindOverlap(components, c.shape);
      if hit {
        return None;
      }
      ids := ids + {c.logical};
      if Singleton(c.shape.role) {
        roles := roles + {c.shape.role};
      }
      components := components + [c];
    }
    assert all[..count] == all;
    return Some(components);
  }

  lemma NothingSeen()
    ensures ComponentsOk([]) && Seen([], {}, {})
  {
  }

  /** Whatever count makes the bytes canonical is the one in the header. */
  lemma CountIs(data: seq<byte>, count: nat)
    requires Canonical(data, count)
    ensures 1 <= count <= MAX_COMPONENTS && |data| == Total(count) && count == Read4(data, 52) && Framed(data, count)
  {
    hide Encode, Le, ComponentsOk, BindingOk;
    ReencodesIff(data, count);
    assert data[..256][52..56] == data[52..56];
  }

  /** Accept exactly the canonical encodings, and return the model they encode. */
  method ValidateManifest(data: seq<byte>) returns (r: Option<Manifest>)
    ensures r.Some? ==> Canonical(data, |r.value.components|) && r.value == Read(data, |r.value.components|)
    ensures r.None? ==> forall count :: !Canonical(data, count)
  {
    hide Canonical, HeaderOk, ReadScalars, ReadBinding, ReadComponents, ComponentsOk, PaddedRows, AllZero, BindingOk,
      Le, Encode, Digest;
    forall count: nat | Canonical(data, count)
      ensures 1 <= count <= MAX_COMPONENTS && |data| == Total(count) && count == Read4(data, 52)
        && Framed(data, count) && Valid(Read(data, count))
    {
      CountIs(data, count);
      CanonicalIsValid(data, count);
    }
    if |data| < Total(1) || |data| > Total(MAX_COMPONENTS) {
      return None;
    }
    var count := Read4(data, 52);
    if count == 0 || count > MAX_COMPONENTS || Total(count) != |data| {
      return None;
    }
    if !HeaderOk(data[..256], count) {
      return None;
    }
    var scalars, schema, binding := ReadScalars(data[..256]), data[96..128], ReadBinding(data[256..512]);
    if !ScalarsOk(scalars) || !Digest(schema) || !BindingOk(binding) || !AllZero(data[256..512][204..]) {
      return None;
    }
    var components := ReadRows(data, count);
    if components.None? {
      return None;
    }
    Reread(data, count);
    return Some(Manifest(scalars, schema, binding, components.value));
  }

  lemma CanonicalIsValid(data: seq<byte>, count: nat)
    requires Canonical(data, count)
    ensures Sized(data, count) && Valid(Read(data, count))
  {
    hide Valid, Encode, Read;
  }

  lemma Reread(data: seq<byte>, count: nat)
    requires Sized(data, count) && Framed(data, count) && Valid(Read(data, count))
    ensures Canonical(data, count) && |Read(data, count).components| == count
  {
    hide Valid, Encode, Framed;
    ReencodesIff(data, count);
  }

  /** A model as the source parser leaves it: everything but the generation relation is settled. */
  ghost predicate Parsed(m: Manifest) {
    && 1 <= m.scalars.mode <= 4 && Digest(m.schema) && BindingOk(m.binding)
    && 1 <= |m.components| <= MAX_COMPONENTS && ComponentsOk(m.components)
  }

  lemma ParsedFits(m: Manifest)
    requires Parsed(m)
    ensures Fits(m)
  {
    ValidFits(m.(scalars := m.scalars.(generation := 1, predecessor := 0)));
  }

  /** Write a manifest; only a generation at or below its predecessor is refused, and the validator reads the result
      back. */
  method EncodeManifest(m: Manifest) returns (r: Option<seq<byte>>)
    requires Parsed(m)
    ensures r.Some? <==> m.scalars.generation != 0 && m.scalars.predecessor < m.scalars.generation
    ensures r.Some? ==>
      Fits(m) && r.value == Encode(m) && Canonical(r.value, |m.components|) && Read(r.value, |m.components|) == m
  {
    hide Header, BindingBytes, RowOf, Join, BindingOk, ComponentsOk, Digest, Canonical, Read, ComponentFits,
      BindingFits;
    if m.scalars.generation == 0 || m.scalars.predecessor >= m.scalars.generation {
      return None;
    }
    ParsedFits(m);
    CodecIsBijective(m);
    var output := Header(m.scalars, m.schema, |m.components|) + BindingBytes(m.binding);
    ghost var head, rows := output, RowsOf(m.components);
    JoinNothing();
    for i := 0 to |m.components|
      invariant output == head + Join(rows[..i])
    {
      JoinNext(rows, i);
      output := output + RowOf(m.components[i]);
    }
    assert rows[..|rows|] == rows;
    return Some(output);
  }
}
