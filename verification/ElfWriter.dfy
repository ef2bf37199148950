/** ELF64 images written field by field, in the order of the System V gABI, and what the analyzer makes of them. */
module ElfWriter {
  import opened Bytes
  import opened Elf64

  /** The fields of a file header that a writer is free to choose. */
  datatype Ehdr = Ehdr(
    pad: seq<byte>, kind: nat, machine: nat, entry: word, shoff: word, flags: nat,
    shentsize: nat, shnum: nat, shstrndx: nat)

  predicate EhdrFits(e: Ehdr) {
    && |e.pad| == 9 && (e.kind == 2 || e.kind == 3) && e.machine < 0x1_0000 && e.flags <= U32_MAX
    && e.shentsize < 0x1_0000 && e.shnum < 0x1_0000 && e.shstrndx < 0x1_0000
  }

  /** e_ident, e_type, e_machine, e_version, e_entry, e_phoff, e_shoff, e_flags, e_ehsize, e_phentsize, e_phnum and the
      section fields. */
  function EhdrBytes(e: Ehdr, phoff: word, count: nat): (b: seq<byte>)
    requires EhdrFits(e) && count < 0x1_0000
    ensures |b| == 64
  {
    Widths();
    EhdrFront(e) + ToLe(e.entry, 8) + ToLe(phoff, 8) + ToLe(e.shoff, 8) + EhdrBack(e, count)
  }

  function EhdrFront(e: Ehdr): (b: seq<byte>)
    requires EhdrFits(e)
    ensures |b| == 24
  {
    Widths();
    [0x7f, 0x45, 0x4c, 0x46, 2, 1, 1] + e.pad + ToLe(e.kind, 2) + ToLe(e.machine, 2) + ToLe(1, 4)
  }

  function EhdrBack(e: Ehdr, count: nat): (b: seq<byte>)
    requires EhdrFits(e) && count < 0x1_0000
    ensures |b| == 16
  {
    Widths();
    ToLe(e.flags, 4) + ToLe(64, 2) + ToLe(56, 2) + ToLe(count, 2)
    + ToLe(e.shentsize, 2) + ToLe(e.shnum, 2) + ToLe(e.shstrndx, 2)
  }

  predicate PhdrFits(h: Phdr) {
    h.kind <= U32_MAX && h.flags <= U32_MAX
  }

  /** p_type, p_flags, p_offset, p_vaddr, p_paddr, p_filesz, p_memsz and p_align. */
  function PhdrBytes(h: Phdr): (b: seq<byte>)
    requires PhdrFits(h)
    ensures |b| == 56
  {
    Widths();
    PhdrFront(h) + ToLe(h.paddr, 8) + ToLe(h.filesz, 8) + ToLe(h.memsz, 8) + ToLe(h.align, 8)
  }

  function PhdrFront(h: Phdr): (b: seq<byte>)
    requires PhdrFits(h)
    ensures |b| == 24
  {
    Widths();
    ToLe(h.kind, 4) + ToLe(h.flags, 4) + ToLe(h.offset, 8) + ToLe(h.vaddr, 8)
  }

  predicate AllFit(headers: seq<Phdr>) {
    forall i :: 0 <= i < |headers| ==> PhdrFits(headers[i])
  }

  function TableBytes(headers: seq<Phdr>): (b: seq<byte>)
    requires AllFit(headers)
    ensures |b| == 56 * |headers|
  {
    if headers == [] then [] else TableBytes(headers[..|headers| - 1]) + PhdrBytes(headers[|headers| - 1])
  }

  /** A whole image: file header, anything, program header table, anything. */
  function ImageBytes(e: Ehdr, gap: seq<byte>, headers: seq<Phdr>, tail: seq<byte>): (data: seq<byte>)
    requires EhdrFits(e) && AllFit(headers) && |headers| < 0x1_0000 && 64 + |gap| <= U64_MAX
    ensures |data| == 64 + |gap| + 56 * |headers| + |tail|
  {
    EhdrBytes(e, 64 + |gap|, |headers|) + gap + TableBytes(headers) + tail
  }

  // ---- Reading back

  lemma PhdrFrontReads(h: Phdr)
    requires PhdrFits(h)
    ensures var b := PhdrFront(h);
      Le(b[0..4]) == h.kind && Le(b[4..8]) == h.flags && Le(b[8..16]) == h.offset && Le(b[16..24]) == h.vaddr
  {
    hide ToLe, Le;
    Widths();
    var b := PhdrFront(h);
    var p, q, r, s := ToLe(h.kind, 4), ToLe(h.flags, 4), ToLe(h.offset, 8), ToLe(h.vaddr, 8);
    assert b == p + q + r + s;
    assert b[0..4] == p && b[4..8] == q && b[8..16] == r && b[16..24] == s;
    LeOfToLe(h.kind, 4);
    LeOfToLe(h.flags, 4);
    LeOfToLe(h.offset, 8);
    LeOfToLe(h.vaddr, 8);
  }

  lemma PhdrBackReads(h: Phdr)
    requires PhdrFits(h)
    ensures var b := PhdrBytes(h);
      && b[..24] == PhdrFront(h) && Le(b[24..32]) == h.paddr && Le(b[32..40]) == h.filesz
      && Le(b[40..48]) == h.memsz && Le(b[48..56]) == h.align
  {
    hide ToLe, Le, PhdrFront;
    Widths();
    var b := PhdrBytes(h);
    var f, p, q, r, s := PhdrFront(h), ToLe(h.paddr, 8), ToLe(h.filesz, 8), ToLe(h.memsz, 8), ToLe(h.align, 8);
    assert b == f + p + q + r + s;
    assert b[..24] == f && b[24..32] == p && b[32..40] == q && b[40..48] == r && b[48..56] == s;
    LeOfToLe(h.paddr, 8);
    LeOfToLe(h.filesz, 8);
    LeOfToLe(h.memsz, 8);
    LeOfToLe(h.align, 8);
  }

  /** A written program header is read back with every field. */
  lemma PhdrReads(data: seq<byte>, o: nat, h: Phdr)
    requires PhdrFits(h) && o + 56 <= |data| && data[o..o + 56] == PhdrBytes(h)
    ensures PhdrAt(data, o) == h
  {
    hide ToLe, Le, PhdrFront, PhdrBytes;
    var b := PhdrBytes(h);
    PhdrFrontReads(h);
    PhdrBackReads(h);
    var f := PhdrFront(h);
    assert f == data[o..o + 24] by { Inside(data, o, 56, 0, 24); }
    Inside(data, o, 24, 0, 4);
    Inside(data, o, 24, 4, 8);
    Inside(data, o, 24, 8, 16);
    Inside(data, o, 24, 16, 24);
    Inside(data, o, 56, 24, 32);
    Inside(data, o, 56, 32, 40);
    Inside(data, o, 56, 40, 48);
    Inside(data, o, 56, 48, 56);
  }

  lemma Inside(data: seq<byte>, o: nat, n: nat, i: nat, j: nat)
    requires i <= j <= n && o + n <= |data|
    ensures data[o..o + n][i..j] == data[o + i..o + j]
  {
    var part := data[o..o + n];
    assert forall k :: 0 <= k < n ==> part[k] == data[o + k];
  }

  lemma {:induction false} TableAt(headers: seq<Phdr>, k: nat)
    requires AllFit(headers) && k < |headers|
    ensures TableBytes(headers)[56 * k..56 * k + 56] == PhdrBytes(headers[k])
  {
    hide PhdrBytes;
    var n := |headers| - 1;
    var head, last := TableBytes(headers[..n]), PhdrBytes(headers[n]);
    if k < n {
      TableAt(headers[..n], k);
      assert (head + last)[56 * k..56 * k + 56] == head[56 * k..56 * k + 56];
    } else {
      assert (head + last)[56 * k..56 * k + 56] == last;
    }
  }

  lemma EhdrFrontReads(e: Ehdr)
    requires EhdrFits(e)
    ensures var b := EhdrFront(e);
      b[..7] == [0x7f, 0x45, 0x4c, 0x46, 2, 1, 1] && Le(b[16..18]) == e.kind && Le(b[20..24]) == 1
  {
    hide ToLe, Le;
    Widths();
    var b := EhdrFront(e);
    var magic: seq<byte> := [0x7f, 0x45, 0x4c, 0x46, 2, 1, 1];
    var p, q, r := ToLe(e.kind, 2), ToLe(e.machine, 2), ToLe(1, 4);
    assert b == magic + e.pad + p + q + r;
    assert b[..7] == magic && b[16..18] == p && b[20..24] == r;
    LeOfToLe(e.kind, 2);
    LeOfToLe(1, 4);
  }

  lemma EhdrBackReads(e: Ehdr, count: nat)
    requires EhdrFits(e) && count < 0x1_0000
    ensures var b := EhdrBack(e, count); Le(b[4..6]) == 64 && Le(b[6..8]) == 56 && Le(b[8..10]) == count
  {
    hide ToLe, Le;
    Widths();
    var b := EhdrBack(e, count);
    var p, q, r, s := ToLe(e.flags, 4), ToLe(64, 2), ToLe(56, 2), ToLe(count, 2);
    var t, u, v := ToLe(e.shentsize, 2), ToLe(e.shnum, 2), ToLe(e.shstrndx, 2);
    assert b == p + q + r + s + t + u + v;
    assert b[4..6] == q && b[6..8] == r && b[8..10] == s;
    LeOfToLe(64, 2);
    LeOfToLe(56, 2);
    LeOfToLe(count, 2);
  }

  lemma EhdrReads(e: Ehdr, phoff: word, count: nat)
    requires EhdrFits(e) && count < 0x1_0000
    ensures var b := EhdrBytes(e, phoff, count);
      && b[..24] == EhdrFront(e) && b[48..] == EhdrBack(e, count) && Le(b[24..32]) == e.entry && Le(b[32..40]) == phoff
  {
    hide ToLe, Le, EhdrFront, EhdrBack;
    Widths();
    var b := EhdrBytes(e, phoff, count);
    var f, p, q, r, k := EhdrFront(e), ToLe(e.entry, 8), ToLe(phoff, 8), ToLe(e.shoff, 8), EhdrBack(e, count);
    assert b == f + p + q + r + k;
    assert b[..24] == f && b[24..32] == p && b[32..40] == q && b[48..] == k;
    LeOfToLe(e.entry, 8);
    LeOfToLe(phoff, 8);
  }

  /** The file header of a written image is accepted and read back. */
  lemma HeaderWritten(data: seq<byte>, e: Ehdr, phoff: word, count: nat)
    requires EhdrFits(e) && 0 < count < 0x1_0000 && |data| >= 64 && data[..64] == EhdrBytes(e, phoff, count)
    ensures Identified(data) && TableOffset(data) == phoff && Count(data) == count && EntryPoint(data) == e.entry
  {
    hide ToLe, Le, EhdrFront, EhdrBack, EhdrBytes;
    var b := EhdrBytes(e, phoff, count);
    EhdrReads(e, phoff, count);
    EhdrFrontReads(e);
    EhdrBackReads(e, count);
    var f, k := EhdrFront(e), EhdrBack(e, count);
    assert data[0..64] == b && f == b[0..24] && k == b[48..64];
    Inside(b, 0, 24, 0, 7);
    Inside(b, 0, 24, 16, 18);
    Inside(b, 0, 24, 20, 24);
    Inside(b, 48, 16, 4, 6);
    Inside(b, 48, 16, 6, 8);
    Inside(b, 48, 16, 8, 10);
    Inside(data, 0, 64, 0, 7);
    Inside(data, 0, 64, 16, 18);
    Inside(data, 0, 64, 20, 24);
    Inside(data, 0, 64, 24, 32);
    Inside(data, 0, 64, 32, 40);
    Inside(data, 0, 64, 52, 54);
    Inside(data, 0, 64, 54, 56);
    Inside(data, 0, 64, 56, 58);
  }

  /** The file header that stands at the start of the bytes. */
  function EhdrOf(data: seq<byte>): (e: Ehdr)
    requires |data| >= 64
  {
    Ehdr(data[7..16], Read2(data, 16), Read2(data, 18), Read8(data, 24), Read8(data, 40), Read4(data, 48),
         Read2(data, 58), Read2(data, 60), Read2(data, 62))
  }

  lemma Rewritten(data: seq<byte>, o: nat, n: nat)
    requires o + n <= |data|
    ensures Le(data[o..o + n]) < Pow256(n) && ToLe(Le(data[o..o + n]), n) == data[o..o + n]
  {
    ToLeOfLe(data[o..o + n]);
  }

  lemma FrontRewritten(data: seq<byte>)
    requires Identified(data)
    ensures EhdrFits(EhdrOf(data)) && EhdrFront(EhdrOf(data)) == data[..24]
  {
    hide ToLe, Le;
    Widths();
    var e := EhdrOf(data);
    Rewritten(data, 16, 2);
    Rewritten(data, 18, 2);
    Rewritten(data, 20, 4);
    assert data[..24] == data[..7] + data[7..16] + data[16..18] + data[18..20] + data[20..24];
  }

  lemma BackRewritten(data: seq<byte>)
    requires Identified(data) && EhdrFits(EhdrOf(data))
    ensures EhdrBack(EhdrOf(data), Count(data)) == data[48..64]
  {
    hide ToLe, Le;
    Widths();
    Rewritten(data, 48, 4);
    Rewritten(data, 52, 2);
    Rewritten(data, 54, 2);
    Rewritten(data, 56, 2);
    Rewritten(data, 58, 2);
    Rewritten(data, 60, 2);
    Rewritten(data, 62, 2);
    assert data[48..64] ==
      data[48..52] + data[52..54] + data[54..56] + data[56..58] + data[58..60] + data[60..62] + data[62..64];
  }

  /** The file headers the analyzer accepts are exactly the written ones with at least one program header. */
  lemma HeaderExact(data: seq<byte>)
    requires |data| >= 64
    ensures Identified(data) <==>
      exists e: Ehdr, phoff: word, count: nat ::
        EhdrFits(e) && 0 < count < 0x1_0000 && data[..64] == EhdrBytes(e, phoff, count)
  {
    hide EhdrFits, Identified;
    if Identified(data) {
      var e := EhdrOf(data);
      HeaderRewritten(data);
    }
    if exists e: Ehdr, phoff: word, count: nat ::
        EhdrFits(e) && 0 < count < 0x1_0000 && data[..64] == EhdrBytes(e, phoff, count) {
      var e: Ehdr, phoff: word, count: nat :|
        EhdrFits(e) && 0 < count < 0x1_0000 && data[..64] == EhdrBytes(e, phoff, count);
      HeaderWritten(data, e, phoff, count);
    }
  }

  lemma HeaderRewritten(data: seq<byte>)
    requires Identified(data)
    ensures EhdrFits(EhdrOf(data)) && 0 < Count(data) < 0x1_0000
    ensures data[..64] == EhdrBytes(EhdrOf(data), TableOffset(data), Count(data))
  {
    hide ToLe, Le, EhdrFront, EhdrBack;
    Widths();
    FrontRewritten(data);
    BackRewritten(data);
    Rewritten(data, 24, 8);
    Rewritten(data, 32, 8);
    Rewritten(data, 40, 8);
    assert data[..64] == data[..24] + data[24..32] + data[32..40] + data[40..48] + data[48..64];
  }

  /** Every header of a written image is read back with every field, whatever the values. */
  lemma ImageReads(e: Ehdr, gap: seq<byte>, headers: seq<Phdr>, tail: seq<byte>)
    requires EhdrFits(e) && AllFit(headers) && 0 < |headers| < 0x1_0000
    requires 64 + |gap| + 56 * |headers| + |tail| <= U64_MAX
    ensures var data := ImageBytes(e, gap, headers, tail);
      && Identified(data) && Tabled(data) && Count(data) == |headers| && EntryPoint(data) == e.entry
      && forall k :: 0 <= k < |headers| ==> HeaderOf(data, k) == headers[k]
  {
    hide PhdrBytes, EhdrBytes, Identified, EntryPoint, TableOffset, Count, PhdrAt;
    var data := ImageBytes(e, gap, headers, tail);
    var front, table, o := EhdrBytes(e, 64 + |gap|, |headers|), TableBytes(headers), 64 + |gap|;
    assert data[..64] == front;
    HeaderWritten(data, e, o, |headers|);
    forall k | 0 <= k < |headers| ensures HeaderOf(data, k) == headers[k] {
      TableAt(headers, k);
      var at := o + 56 * k;
      assert data[at..at + 56] == table[56 * k..56 * k + 56];
      PhdrReads(data, at, headers[k]);
    }
  }

  // ---- Segments

  /** The program header of a segment. */
  function HeaderFor(s: Segment): (h: Phdr)
    ensures PhdrFits(h)
  {
    Phdr(1, (if s.read then 4 else 0) + (if s.write then 2 else 0) + (if s.execute then 1 else 0),
         s.fileOffset, s.virtualAddress, s.linkedPhysical, s.fileSize, s.memorySize, s.alignment)
  }

  function HeadersFor(segments: seq<Segment>): (headers: seq<Phdr>)
    ensures |headers| == |segments| && AllFit(headers)
  {
    seq(|segments|, i requires 0 <= i < |segments| => HeaderFor(segments[i]))
  }

  /** A segment that can be written: sound, congruent to its alignment, and loaded where it is linked. */
  predicate Writable(s: Segment, size: nat) {
    && Sound(s, size) && s.loadAddress == (if s.linkedPhysical != 0 then s.linkedPhysical else s.virtualAddress)
    && (s.alignment <= 1 ||
        (PowerOfTwo(s.alignment) && s.fileOffset % s.alignment == s.virtualAddress % s.alignment
         && s.fileOffset % s.alignment == s.loadAddress % s.alignment))
  }

  lemma HeaderForIs(s: Segment, size: nat)
    requires Writable(s, size)
    ensures IsLoad(HeaderFor(s)) && SegmentOf(HeaderFor(s)) == s && (size <= U64_MAX ==> Formed(HeaderFor(s), size))
  {
    hide PowerOfTwo;
  }

  lemma {:induction false} SegmentsWritten(data: seq<byte>, segments: seq<Segment>, k: nat)
    requires Tabled(data) && Count(data) == |segments| && k <= |segments| && |data| <= U64_MAX
    requires forall i :: 0 <= i < |segments| ==>
      Writable(segments[i], |data|) && HeaderOf(data, i) == HeaderFor(segments[i])
    ensures Segments(data, k) == segments[..k] && AllFormed(data, k)
  {
    hide Tabled, Count, HeaderOf, HeaderFor, Formed, SegmentOf, Writable, IsLoad;
    if k > 0 {
      SegmentsWritten(data, segments, k - 1);
      HeaderForIs(segments[k - 1], |data|);
      assert segments[..k] == segments[..k - 1] + [segments[k - 1]];
    }
  }

  /** The image of any writable, disjoint segments with an executable entry is loadable, as exactly those segments. */
  lemma WrittenIsLoadable(e: Ehdr, gap: seq<byte>, segments: seq<Segment>, tail: seq<byte>, capacity: nat)
    requires EhdrFits(e) && 0 < |segments| < 0x1_0000 && |segments| <= capacity
    requires 64 + |gap| + 56 * |segments| + |tail| <= U64_MAX
    requires forall i :: 0 <= i < |segments| ==>
      Writable(segments[i], 64 + |gap| + 56 * |segments| + |tail|)
    requires Apart(segments) && HasEntry(segments, e.entry)
    ensures var data := ImageBytes(e, gap, HeadersFor(segments), tail);
      && Tabled(data) && Loadable(data, capacity) && Segments(data, Count(data)) == segments
      && EntryPoint(data) == e.entry
  {
    hide Tabled, Count, HeaderOf, HeaderFor, Writable, Identified, EntryPoint, Apart, HasEntry, ImageBytes;
    var data := ImageBytes(e, gap, HeadersFor(segments), tail);
    ImageReads(e, gap, HeadersFor(segments), tail);
    SegmentsWritten(data, segments, |segments|);
    assert segments[..|segments|] == segments;
  }

  lemma FormedIsWritable(h: Phdr, size: nat)
    requires Formed(h, size)
    ensures Writable(SegmentOf(h), size)
  {
    hide PowerOfTwo;
  }

  lemma {:induction false} SegmentsWritable(data: seq<byte>, k: nat)
    requires Tabled(data) && k <= Count(data) && AllFormed(data, k)
    ensures forall i :: 0 <= i < |Segments(data, k)| ==> Writable(Segments(data, k)[i], |data|)
  {
    hide Tabled, Count, HeaderOf, Formed, SegmentOf, Writable, IsLoad;
    if k > 0 {
      SegmentsWritable(data, k - 1);
      if IsLoad(HeaderOf(data, k - 1)) {
        FormedIsWritable(HeaderOf(data, k - 1), |data|);
      }
    }
  }

  /** Conversely, every loadable image has a written header and only writable, disjoint segments with an executable
      entry. */
  lemma LoadableIsWritten(data: seq<byte>, capacity: nat)
    requires Loadable(data, capacity)
    ensures Tabled(data) && EhdrFits(EhdrOf(data)) && 0 < Count(data) < 0x1_0000
    ensures data[..64] == EhdrBytes(EhdrOf(data), TableOffset(data), Count(data))
    ensures var s := Segments(data, Count(data));
      && 0 < |s| <= capacity && Apart(s) && HasEntry(s, EntryPoint(data))
      && forall i :: 0 <= i < |s| ==> Writable(s[i], |data|)
  {
    hide Tabled, Segments, Apart, HasEntry, Writable, EhdrBytes, EhdrFits, Identified;
    HeaderRewritten(data);
    SegmentsWritable(data, Count(data));
  }

  /** Write an image and analyze it: the plan holds exactly the written segments and the entry. */
  method AnalyzeWritten(e: Ehdr, gap: seq<byte>, segments: seq<Segment>, tail: seq<byte>, plan: DirectLoadPlan)
    returns (status: Status)
    requires plan.Valid() && EhdrFits(e) && 0 < |segments| < 0x1_0000 && |segments| <= plan.segments.Length
    requires 64 + |gap| + 56 * |segments| + |tail| <= U64_MAX
    requires forall i :: 0 <= i < |segments| ==>
      Writable(segments[i], 64 + |gap| + 56 * |segments| + |tail|)
    requires Apart(segments) && HasEntry(segments, e.entry)
    modifies plan, plan.segments
    ensures status == OK && plan.Valid() && plan.List() == segments && plan.at.entryPoint == e.entry
    ensures EntryPlaced(segments, e.entry, plan.at.entryLoad)
  {
    hide Writable, Apart, HasEntry, ImageBytes, Loadable, Segments, Count, EntryPoint, Tabled, Hull, Spans, EntryPlaced;
    WrittenIsLoadable(e, gap, segments, tail, plan.segments.Length);
    status := Analyze(ImageBytes(e, gap, HeadersFor(segments), tail), plan);
  }
}
