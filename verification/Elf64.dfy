/** Analysis of ELF64 images into a direct load plan. */
module Elf64 {
  import opened Bytes

  const HEADER_SIZE: nat := 64
  const PHDR_SIZE: nat := 56

  datatype Status =
    | OK | TRUNCATED | BAD_FORMAT | UNSUPPORTED | OVERFLOW | MISALIGNED
    | OVERLAPPING_SEGMENTS | OUT_OF_CAPACITY | NO_LOAD_SEGMENTS

  datatype Segment = Segment(
    fileOffset: word, fileSize: word, memorySize: word, virtualAddress: word, linkedPhysical: word,
    loadAddress: word, runtimeAddress: word, alignment: word, read: bool, write: bool, execute: bool)

  /** One program header as it stands in the table. */
  datatype Phdr = Phdr(kind: nat, flags: nat, offset: word, vaddr: word, paddr: word, filesz: word, memsz: word,
    align: word)

  function PhdrAt(data: seq<byte>, o: nat): (h: Phdr)
    requires o + PHDR_SIZE <= |data|
  {
    Phdr(Read4(data, o), Read4(data, o + 4), Read8(data, o + 8), Read8(data, o + 16), Read8(data, o + 24),
         Read8(data, o + 32), Read8(data, o + 40), Read8(data, o + 48))
  }

  function LoadAddress(h: Phdr): (a: word) {
    if h.paddr != 0 then h.paddr else h.vaddr
  }

  predicate AlignmentFits(h: Phdr) {
    && (h.align != 0 && h.align != 1 ==> PowerOfTwo(h.align))
    && (h.align > 1 ==> h.offset % h.align == h.vaddr % h.align && h.offset % h.align == LoadAddress(h) % h.align)
  }

  function SegmentOf(h: Phdr): (s: Segment) {
    Segment(h.offset, h.filesz, h.memsz, h.vaddr, h.paddr, LoadAddress(h), LoadAddress(h), h.align,
            h.flags / 4 % 2 == 1, h.flags / 2 % 2 == 1, h.flags % 2 == 1)
  }

  function End(s: Segment): (e: nat) {
    s.loadAddress + s.memorySize
  }

  predicate Overlap(s: Segment, t: Segment) {
    s.loadAddress < End(t) && t.loadAddress < End(s)
  }

  // ---- What an accepted image is

  /** File slice inside the image, no larger than its memory, and no address arithmetic that wraps. */
  predicate Sound(s: Segment, size: nat) {
    && s.memorySize != 0 && s.fileSize <= s.memorySize && s.fileOffset + s.fileSize <= size
    && End(s) <= U64_MAX && s.virtualAddress + s.memorySize <= U64_MAX && s.runtimeAddress == s.loadAddress
    && (s.linkedPhysical != 0 ==> s.loadAddress == s.linkedPhysical)
  }

  ghost predicate Apart(segments: seq<Segment>) {
    forall i, j :: 0 <= i < j < |segments| ==> !Overlap(segments[i], segments[j])
  }

  ghost predicate AllSound(segments: seq<Segment>, size: nat) {
    forall i :: 0 <= i < |segments| ==> Sound(segments[i], size)
  }

  predicate HoldsEntry(s: Segment, entry: word) {
    s.virtualAddress <= entry < s.virtualAddress + s.memorySize && s.execute
  }

  /** Identification and fixed header fields. */
  predicate Identified(data: seq<byte>) {
    && |data| >= HEADER_SIZE && data[..7] == [0x7f, 0x45, 0x4c, 0x46, 2, 1, 1]
    && Read2(data, 16) in {2, 3} && Read4(data, 20) == 1 && Read2(data, 52) == HEADER_SIZE
    && Read2(data, 54) == PHDR_SIZE && Read2(data, 56) != 0
  }

  function TableOffset(data: seq<byte>): (o: word)
    requires |data| >= HEADER_SIZE
  {
    Read8(data, 32)
  }

  function Count(data: seq<byte>): (n: nat)
    requires |data| >= HEADER_SIZE
  {
    Read2(data, 56)
  }

  function EntryPoint(data: seq<byte>): (e: word)
    requires |data| >= HEADER_SIZE
  {
    Read8(data, 24)
  }

  /** The program header table lies inside the image. */
  predicate Tabled(data: seq<byte>): (r: bool)
    ensures r ==> |data| >= HEADER_SIZE
  {
    && |data| >= HEADER_SIZE && TableOffset(data) + PHDR_SIZE * Count(data) <= U64_MAX
    && TableOffset(data) + PHDR_SIZE * Count(data) <= |data|
  }

  function HeaderOf(data: seq<byte>, k: nat): (h: Phdr)
    requires Tabled(data) && k < Count(data)
  {
    PhdrAt(data, TableOffset(data) + PHDR_SIZE * k)
  }

  predicate IsLoad(h: Phdr) {
    h.kind == 1
  }

  /** Segments of the loadable headers below `k`, in table order. */
  function Segments(data: seq<byte>, k: nat): (s: seq<Segment>)
    requires Tabled(data) && k <= Count(data)
  {
    if k == 0 then []
    else Segments(data, k - 1) + (if IsLoad(HeaderOf(data, k - 1)) then [SegmentOf(HeaderOf(data, k - 1))] else [])
  }

  predicate Formed(h: Phdr, size: nat) {
    && h.memsz != 0 && h.filesz <= h.memsz && AlignmentFits(h)
    && h.offset + h.filesz <= size && h.offset + h.filesz <= U64_MAX
    && LoadAddress(h) + h.memsz <= U64_MAX && h.vaddr + h.memsz <= U64_MAX
  }

  ghost predicate AllFormed(data: seq<byte>, k: nat)
    requires Tabled(data) && k <= Count(data)
  {
    forall i :: 0 <= i < k && IsLoad(HeaderOf(data, i)) ==> Formed(HeaderOf(data, i), |data|)
  }

  /** The images the analyzer accepts with room for `capacity` segments. */
  ghost predicate Loadable(data: seq<byte>, capacity: nat) {
    && Identified(data) && Tabled(data) && AllFormed(data, Count(data))
    && var s := Segments(data, Count(data));
       Apart(s) && 0 < |s| <= capacity && HasEntry(s, EntryPoint(data))
  }

  // ---- Errors

  function HeaderFault(data: seq<byte>): (s: Status) {
    if |data| < HEADER_SIZE then TRUNCATED
    else if data[..4] != [0x7f, 0x45, 0x4c, 0x46] then BAD_FORMAT
    else if data[4..7] != [2, 1, 1] || Read2(data, 16) !in {2, 3} then UNSUPPORTED
    else if Read4(data, 20) != 1 || Read2(data, 52) != HEADER_SIZE || Read2(data, 54) != PHDR_SIZE
      || Read2(data, 56) == 0 then BAD_FORMAT
    else if TableOffset(data) > U64_MAX - PHDR_SIZE * Count(data) then OVERFLOW
    else if TableOffset(data) + PHDR_SIZE * Count(data) > |data| then TRUNCATED
    else OK
  }

  lemma HeaderFaultIs(data: seq<byte>)
    ensures HeaderFault(data) == OK <==> Identified(data) && Tabled(data)
  {
    hide Read2, Read4, Read8;
    if |data| >= HEADER_SIZE {
      assert data[..7] == data[..4] + data[4..7];
      assert data[..7][..4] == data[..4] && data[..7][4..] == data[4..7];
    }
  }

  function FormFault(h: Phdr, size: nat): (s: Status) {
    if h.memsz == 0 || h.filesz > h.memsz then BAD_FORMAT
    else if !AlignmentFits(h) then MISALIGNED
    else if h.offset > U64_MAX - h.filesz || LoadAddress(h) > U64_MAX - h.memsz
      || h.vaddr > U64_MAX - h.memsz then OVERFLOW
    else if h.offset + h.filesz > size then TRUNCATED
    else OK
  }

  ghost predicate Hits(segments: seq<Segment>, s: Segment) {
    exists i :: 0 <= i < |segments| && Overlap(segments[i], s)
  }

  /** How the analyzer judges one header behind the headers before it. */
  ghost function HeaderStatus(data: seq<byte>, k: nat, capacity: nat): (s: Status)
    requires Tabled(data) && k < Count(data)
  {
    var h := HeaderOf(data, k);
    if !IsLoad(h) then OK
    else if FormFault(h, |data|) != OK then FormFault(h, |data|)
    else if Hits(Segments(data, k), SegmentOf(h)) then OVERLAPPING_SEGMENTS
    else if |Segments(data, k)| >= capacity then OUT_OF_CAPACITY
    else OK
  }

  ghost predicate FaultlessBelow(data: seq<byte>, k: nat, capacity: nat)
    requires Tabled(data) && k <= Count(data)
  {
    forall j :: 0 <= j < k ==> HeaderStatus(data, j, capacity) == OK
  }

  /** The first header with a fault has this status. */
  ghost predicate FirstFault(data: seq<byte>, capacity: nat, k: nat, status: Status)
    requires Tabled(data)
  {
    k < Count(data) && FaultlessBelow(data, k, capacity) && HeaderStatus(data, k, capacity) == status != OK
  }

  /** Why the table of an image is refused: the first fault, no segments at all, or no place for the entry. */
  ghost predicate Explained(data: seq<byte>, capacity: nat, status: Status)
    requires Tabled(data)
  {
    || (exists k :: FirstFault(data, capacity, k, status))
    || (&& FaultlessBelow(data, Count(data), capacity)
        && status == if Segments(data, Count(data)) == [] then NO_LOAD_SEGMENTS else BAD_FORMAT)
  }

  // ---- Extents

  /** Running minima and maxima over the segments, and the load address of the entry. */
  datatype Extent = Extent(
    loadBase: word, loadEnd: word, virtualBase: word, virtualEnd: word,
    physicalBase: word, physicalEnd: word, usesPaddr: bool, entry: Option<word>)

  function Min(a: word, b: word): (m: word) {
    if a < b then a else b
  }

  function Max(a: word, b: word): (m: word) {
    if a > b then a else b
  }

  function Grow(x: Extent, s: Segment, size: nat, entry: word): (y: Extent)
    requires Sound(s, size)
  {
    Extent(
      Min(x.loadBase, s.loadAddress), Max(x.loadEnd, End(s)),
      Min(x.virtualBase, s.virtualAddress), Max(x.virtualEnd, s.virtualAddress + s.memorySize),
      if s.linkedPhysical != 0 then Min(x.physicalBase, s.linkedPhysical) else x.physicalBase,
      if s.linkedPhysical != 0 then Max(x.physicalEnd, End(s)) else x.physicalEnd,
      x.usesPaddr || s.linkedPhysical != 0,
      if HoldsEntry(s, entry) then Some(EntryIn(s, size, entry)) else x.entry)
  }

  /** The entry keeps its offset inside the segment that holds it. */
  function EntryIn(s: Segment, size: nat, entry: word): (a: word)
    requires Sound(s, size) && HoldsEntry(s, entry)
    ensures s.loadAddress <= a < End(s) && a - s.loadAddress == entry - s.virtualAddress
  {
    s.loadAddress + (entry - s.virtualAddress)
  }

  function ExtentOf(segments: seq<Segment>, size: nat, entry: word): (x: Extent)
    requires AllSound(segments, size)
  {
    if segments == [] then Extent(U64_MAX, 0, U64_MAX, 0, U64_MAX, 0, false, None)
    else Grow(ExtentOf(segments[..|segments| - 1], size, entry), segments[|segments| - 1], size, entry)
  }

  datatype Span = Span(base: nat, end: nat)

  /** Which address ranges of the segments are meant. */
  datatype View = LoadView | VirtualView | LinkedView

  /** The range of one segment in a view; a zero linked address means there is none. */
  function SpanOf(s: Segment, view: View): (r: seq<Span>) {
    match view
    case LoadView => [Span(s.loadAddress, s.loadAddress + s.memorySize)]
    case VirtualView => [Span(s.virtualAddress, s.virtualAddress + s.memorySize)]
    case LinkedView => if s.linkedPhysical == 0 then [] else [Span(s.linkedPhysical, s.linkedPhysical + s.memorySize)]
  }

  function Spans(segments: seq<Segment>, view: View): (r: seq<Span>) {
    if segments == [] then [] else Spans(segments[..|segments| - 1], view) + SpanOf(segments[|segments| - 1], view)
  }

  /** `base` and `end` are the least start and the greatest end of the ranges. */
  ghost predicate Hull(spans: seq<Span>, base: nat, end: nat) {
    && (forall i :: 0 <= i < |spans| ==> base <= spans[i].base && spans[i].end <= end)
    && (spans != [] ==>
       (exists i :: 0 <= i < |spans| && spans[i].base == base) && (exists i :: 0 <= i < |spans| && spans[i].end == end))
    && (spans == [] ==> base == U64_MAX && end == 0)
  }

  lemma HullGrows(spans: seq<Span>, r: Span, base: word, end: word)
    requires Hull(spans, base, end) && r.base <= U64_MAX && r.end <= U64_MAX
    ensures Hull(spans + [r], Min(base, r.base), Max(end, r.end))
  {
    var all := spans + [r];
    assert all[|spans|] == r;
    if spans != [] {
      var i :| 0 <= i < |spans| && spans[i].base == base;
      assert all[i] == spans[i];
      var j :| 0 <= j < |spans| && spans[j].end == end;
      assert all[j] == spans[j];
    }
  }

  /** The address has the offset in the segment that the virtual entry has. */
  predicate EntersAt(s: Segment, entry: word, address: word) {
    HoldsEntry(s, entry) && s.loadAddress <= address < End(s) && address - s.loadAddress == entry - s.virtualAddress
  }

  /** The entry's load address lies in the last executable segment that holds the entry, at the virtual offset. */
  ghost predicate EntryPlaced(segments: seq<Segment>, entry: word, address: word) {
    exists i :: 0 <= i < |segments| && EntersAt(segments[i], entry, address) && !HasEntry(segments[i + 1..], entry)
  }

  ghost predicate HasEntry(segments: seq<Segment>, entry: word) {
    exists i :: 0 <= i < |segments| && HoldsEntry(segments[i], entry)
  }

  lemma HasEntryAppend(head: seq<Segment>, last: Segment, entry: word)
    ensures HasEntry(head + [last], entry) <==> HasEntry(head, entry) || HoldsEntry(last, entry)
  {
    hide HoldsEntry;
    var all := head + [last];
    assert all[|head|] == last && forall i :: 0 <= i < |head| ==> all[i] == head[i];
  }

  lemma EntryAppend(head: seq<Segment>, last: Segment, entry: word, a: word)
    requires EntersAt(last, entry, a) || (EntryPlaced(head, entry, a) && !HoldsEntry(last, entry))
    ensures EntryPlaced(head + [last], entry, a)
  {
    hide HoldsEntry, EntersAt, HasEntry;
    var all := head + [last];
    if EntersAt(last, entry, a) {
      assert all[|head|] == last && all[|head| + 1..] == [];
      NoEntry(entry);
    } else {
      var i :| 0 <= i < |head| && EntersAt(head[i], entry, a) && !HasEntry(head[i + 1..], entry);
      assert all[i] == head[i] && all[i + 1..] == head[i + 1..] + [last];
      HasEntryAppend(head[i + 1..], last, entry);
    }
  }

  lemma NoEntry(entry: word)
    ensures !HasEntry([], entry)
  {
  }

  ghost predicate Hulls(segments: seq<Segment>, x: Extent) {
    && Hull(Spans(segments, LoadView), x.loadBase, x.loadEnd)
    && Hull(Spans(segments, VirtualView), x.virtualBase, x.virtualEnd)
    && Hull(Spans(segments, LinkedView), x.physicalBase, x.physicalEnd)
    && (x.usesPaddr <==> Spans(segments, LinkedView) != [])
  }

  /** The three address ranges of a plan are the tight hulls of the segments' ranges. */
  lemma {:induction false} ExtentHull(segments: seq<Segment>, size: nat, entry: word)
    requires AllSound(segments, size)
    ensures Hulls(segments, ExtentOf(segments, size, entry))
  {
    hide Hull, HoldsEntry, EntryIn;
    if segments == [] {
      EmptyHull();
    } else {
      var n := |segments| - 1;
      var head, last := segments[..n], segments[n];
      assert Sound(last, size);
      ExtentHull(head, size, entry);
      var x := ExtentOf(head, size, entry);
      HullGrows(Spans(head, LoadView), Span(last.loadAddress, End(last)), x.loadBase, x.loadEnd);
      HullGrows(Spans(head, VirtualView), Span(last.virtualAddress, last.virtualAddress + last.memorySize),
        x.virtualBase, x.virtualEnd);
      if last.linkedPhysical != 0 {
        HullGrows(Spans(head, LinkedView), Span(last.linkedPhysical, End(last)), x.physicalBase, x.physicalEnd);
      } else {
        assert Spans(segments, LinkedView) == Spans(head, LinkedView);
      }
    }
  }

  lemma EmptyHull()
    ensures Hull([], U64_MAX, 0)
  {
  }

  lemma {:induction false} ExtentEntry(segments: seq<Segment>, size: nat, entry: word)
    requires AllSound(segments, size)
    ensures var x := ExtentOf(segments, size, entry);
      && (x.entry.Some? <==> HasEntry(segments, entry))
      && (x.entry.Some? ==> EntryPlaced(segments, entry, x.entry.value))
  {
    hide HoldsEntry, EntryPlaced;
    if segments != [] {
      hide HasEntry;
      var n := |segments| - 1;
      var head, last := segments[..n], segments[n];
      assert Sound(last, size);
      ExtentEntry(head, size, entry);
      assert segments == head + [last];
      HasEntryAppend(head, last, entry);
      var x := ExtentOf(segments, size, entry);
      if x.entry.Some? {
        EntryAppend(head, last, entry, x.entry.value);
      }
    }
  }

  // ---- Facts about the table

  lemma {:induction false} SegmentsSound(data: seq<byte>, k: nat)
    requires Tabled(data) && k <= Count(data) && AllFormed(data, k)
    ensures AllSound(Segments(data, k), |data|)
  {
    hide HeaderOf, AlignmentFits, Count, Tabled;
    if k > 0 {
      SegmentsSound(data, k - 1);
    }
  }

  lemma {:induction false} SegmentsPrefix(data: seq<byte>, k: nat, n: nat)
    requires Tabled(data) && k <= n <= Count(data)
    ensures Segments(data, k) <= Segments(data, n)
    decreases n - k
  {
    hide HeaderOf, Count, Tabled;
    if k < n {
      SegmentsPrefix(data, k, n - 1);
    }
  }

  lemma ApartGrows(segments: seq<Segment>, s: Segment)
    requires Apart(segments)
    ensures Apart(segments + [s]) <==> !Hits(segments, s)
  {
    var all := segments + [s];
    if Hits(segments, s) {
      var i :| 0 <= i < |segments| && Overlap(segments[i], s);
      assert Overlap(all[i], all[|segments|]);
    }
  }

  /** A fault at one header rules the image out. */
  lemma FaultRefuses(data: seq<byte>, k: nat, capacity: nat)
    requires Tabled(data) && k < Count(data) && IsLoad(HeaderOf(data, k)) && Apart(Segments(data, k))
    requires var h, s := HeaderOf(data, k), Segments(data, k);
      FormFault(h, |data|) != OK || Hits(s, SegmentOf(h)) || |s| >= capacity
    ensures !Loadable(data, capacity)
  {
    hide HeaderOf, Identified, AlignmentFits, Count, Tabled, Hits, Overlap;
    var h, s := HeaderOf(data, k), Segments(data, k);
    SegmentsPrefix(data, k + 1, Count(data));
    ApartGrows(s, SegmentOf(h));
    if Apart(Segments(data, Count(data))) {
      PrefixApart(Segments(data, k + 1), Segments(data, Count(data)));
    }
  }

  lemma PrefixApart(s: seq<Segment>, t: seq<Segment>)
    requires s <= t && Apart(t)
    ensures Apart(s)
  {
  }

  // ---- The plan

  /** The scalar fields of a load plan. */
  datatype Addresses = Addresses(
    entryPoint: word, entryLoad: word, runtimeEntry: word, loadBase: word, loadEnd: word, runtimeBase: word,
      runtimeEnd: word,
    memorySize: word, virtualBase: word, virtualEnd: word, physicalBase: word, physicalEnd: word, usesPaddr: bool,
      placed: bool)

  const NO_ADDRESSES := Addresses(0, 0, 0, 0, 0, 0, 0, 0, 0, 0, 0, 0, false, false)

  /** The fields an accepted image determines. */
  function Sealed(x: Extent, entry: word): (a: Addresses)
    requires x.entry.Some? && x.loadBase <= x.loadEnd
  {
    Addresses(
      entry, x.entry.value, x.entry.value, x.loadBase, x.loadEnd, x.loadBase, x.loadEnd, x.loadEnd - x.loadBase,
      x.virtualBase, x.virtualEnd,
      if x.physicalBase == U64_MAX then 0 else x.physicalBase, x.physicalEnd, x.usesPaddr, false)
  }

  class DirectLoadPlan {
    const segments: array<Segment>
    var count: nat
    var at: Addresses

    constructor (segments: array<Segment>)
      ensures this.segments == segments && count == 0 && at == NO_ADDRESSES
    {
      this.segments := segments;
      count, at := 0, NO_ADDRESSES;
    }

    ghost predicate Valid()
      reads this
    {
      count <= segments.Length
    }

    ghost function List(): (s: seq<Segment>)
      reads this, segments
      requires Valid()
    {
      segments[..count]
    }
  }

  /** What a plan says about the image it was made from. */
  ghost predicate Describes(plan: DirectLoadPlan, data: seq<byte>)
    reads plan, plan.segments
    requires plan.Valid() && Tabled(data)
  {
    var at := plan.at;
    && plan.List() == Segments(data, Count(data)) && AllSound(plan.List(), |data|) && Apart(plan.List())
    && at.entryPoint == EntryPoint(data) && EntryPlaced(plan.List(), at.entryPoint, at.entryLoad)
       && at.runtimeEntry == at.entryLoad
    && Hull(Spans(plan.List(), LoadView), at.loadBase, at.loadEnd) && at.loadBase < at.loadEnd
       && at.memorySize == at.loadEnd - at.loadBase
    && Hull(Spans(plan.List(), VirtualView), at.virtualBase, at.virtualEnd)
    && (if at.usesPaddr then Hull(Spans(plan.List(), LinkedView), at.physicalBase, at.physicalEnd)
        else Spans(plan.List(), LinkedView) == [] && at.physicalBase == 0 && at.physicalEnd == 0)
    && at.runtimeBase == at.loadBase && at.runtimeEnd == at.loadEnd && !at.placed
  }

  /** Judge one loadable header against the segments recorded so far. */
  method CheckSegment(plan: DirectLoadPlan, h: Phdr, size: nat) returns (status: Status)
    requires plan.Valid() && AllSound(plan.List(), size)
    ensures status == if FormFault(h, size) != OK then FormFault(h, size)
                      else if Hits(plan.List(), SegmentOf(h)) then OVERLAPPING_SEGMENTS
                      else if plan.count >= plan.segments.Length then OUT_OF_CAPACITY else OK
  {
    hide AlignmentFits;
    var loadAddress := LoadAddress(h);
    if h.memsz == 0 || h.filesz > h.memsz {
      return BAD_FORMAT;
    }
    if !AlignmentFits(h) {
      return MISALIGNED;
    }
    if h.offset > U64_MAX - h.filesz || loadAddress > U64_MAX - h.memsz || h.vaddr > U64_MAX - h.memsz {
      return OVERFLOW;
    }
    if h.offset + h.filesz > size {
      return TRUNCATED;
    }
    status := OVERFLOW;
    for i := 0 to plan.count
      invariant status == OVERFLOW && forall k :: 0 <= k < i ==> !Overlap(plan.segments[k], SegmentOf(h))
    {
      var previous := plan.segments[i];
      assert previous == plan.List()[i];
      if previous.loadAddress > U64_MAX - previous.memorySize {
        return;
      }
      if previous.loadAddress < loadAddress + h.memsz && loadAddress < previous.loadAddress + previous.memorySize {
        assert Overlap(plan.List()[i], SegmentOf(h));
        return OVERLAPPING_SEGMENTS;
      }
    }
    if plan.count >= plan.segments.Length {
      return OUT_OF_CAPACITY;
    }
    return OK;
  }

  /** Record every loadable header of the table, stopping at the first fault. */
  method ScanTable(data: seq<byte>, plan: DirectLoadPlan) returns (status: Status, x: Extent)
    requires plan.Valid() && plan.count == 0 && Identified(data) && Tabled(data)
    modifies plan`count, plan.segments
    ensures plan.Valid()
    ensures status == OK ==>
      plan.List() == Segments(data, Count(data)) && Apart(plan.List()) && AllFormed(data, Count(data))
    ensures status == OK ==> AllSound(plan.List(), |data|) && x == ExtentOf(plan.List(), |data|, EntryPoint(data))
    ensures status != OK ==> !Loadable(data, plan.segments.Length)
    ensures status == OK ==> FaultlessBelow(data, Count(data), plan.segments.Length)
    ensures status != OK ==> exists k :: FirstFault(data, plan.segments.Length, k, status)
  {
    hide Identified, HeaderOf, FormFault, Hits, Apart, Tabled, Count, EntryPoint, Grow, ExtentOf, Sound, Formed;
    hide Loadable, SegmentOf;
    var size, entry := |data|, EntryPoint(data);
    x := Extent(U64_MAX, 0, U64_MAX, 0, U64_MAX, 0, false, None);
    NoSegments(size, entry);
    status := OK;
    for k := 0 to Count(data)
      invariant plan.Valid() && plan.List() == Segments(data, k) && AllFormed(data, k) && Apart(Segments(data, k))
      invariant AllSound(Segments(data, k), size) && x == ExtentOf(Segments(data, k), size, entry)
      invariant FaultlessBelow(data, k, plan.segments.Length)
    {
      var h := HeaderOf(data, k);
      if !IsLoad(h) {
        continue;
      }
      status := CheckSegment(plan, h, size);
      var s := SegmentOf(h);
      ApartGrows(Segments(data, k), s);
      FormedIs(h, size);
      if status != OK {
        FaultRefuses(data, k, plan.segments.Length);
        assert FirstFault(data, plan.segments.Length, k, status);
        return;
      }
      NextExtent(Segments(data, k), s, size, entry);
      ghost var before := plan.List();
      plan.segments[plan.count] := s;
      plan.count := plan.count + 1;
      assert plan.List() == before + [s];
      x := Grow(x, s, size, entry);
    }
    return OK, x;
  }

  /** Turn an image into a load plan: accepted exactly when it is loadable. */
  method Analyze(data: seq<byte>, plan: DirectLoadPlan) returns (status: Status)
    requires plan.Valid()
    modifies plan, plan.segments
    ensures plan.Valid()
    ensures status == OK <==> Loadable(data, plan.segments.Length)
    ensures HeaderFault(data) != OK ==> status == HeaderFault(data)
    ensures HeaderFault(data) == OK ==> Tabled(data) && (status != OK ==> Explained(data, plan.segments.Length, status))
    ensures status == OK ==> Describes(plan, data)
  {
    hide Identified, HeaderFault, Apart, Tabled, Count, EntryPoint, EntryPlaced, HasEntry, Hull, Spans, ExtentOf,
      Sound, Segments;
    hide FirstFault, FaultlessBelow;
    plan.count, plan.at := 0, NO_ADDRESSES;
    HeaderFaultIs(data);
    status := HeaderFault(data);
    if status != OK {
      return;
    }
    var x;
    status, x := ScanTable(data, plan);
    if status != OK {
      return;
    }
    var entry := EntryPoint(data);
    ExtentHull(plan.List(), |data|, entry);
    ExtentEntry(plan.List(), |data|, entry);
    if plan.count == 0 {
      return NO_LOAD_SEGMENTS;
    }
    if x.entry.None? {
      return BAD_FORMAT;
    }
    HullIsSpan(plan.List(), |data|, x);
    status := OVERFLOW;
    if x.loadEnd < x.loadBase {
      return;
    }
    plan.at := Sealed(x, entry);
    return OK;
  }

  lemma NoSegments(size: nat, entry: word)
    ensures Apart([]) && ExtentOf([], size, entry) == Extent(U64_MAX, 0, U64_MAX, 0, U64_MAX, 0, false, None)
  {
  }

  lemma FormedIs(h: Phdr, size: nat)
    ensures FormFault(h, size) == OK <==> Formed(h, size)
    ensures Formed(h, size) ==> Sound(SegmentOf(h), size)
  {
    hide AlignmentFits;
  }

  lemma NextExtent(segments: seq<Segment>, s: Segment, size: nat, entry: word)
    requires AllSound(segments, size) && Sound(s, size)
    ensures AllSound(segments + [s], size)
    ensures ExtentOf(segments + [s], size, entry) == Grow(ExtentOf(segments, size, entry), s, size, entry)
  {
    assert (segments + [s])[..|segments|] == segments;
  }

  lemma HullIsSpan(segments: seq<Segment>, size: nat, x: Extent)
    requires segments != [] && AllSound(segments, size) && Hulls(segments, x)
    ensures x.loadBase < x.loadEnd
    ensures x.usesPaddr ==> x.physicalBase != U64_MAX
    ensures !x.usesPaddr ==> x.physicalBase == U64_MAX && x.physicalEnd == 0
  {
    var n := |segments| - 1;
    assert Sound(segments[n], size);
    var r := Spans(segments, LoadView);
    assert r[|r| - 1] == Span(segments[n].loadAddress, End(segments[n]));
    if x.usesPaddr {
      LinkedBelow(segments, size, 0);
    }
  }

  lemma {:induction false} LinkedBelow(segments: seq<Segment>, size: nat, i: nat)
    requires AllSound(segments, size) && i < |Spans(segments, LinkedView)|
    ensures Spans(segments, LinkedView)[i].base < Spans(segments, LinkedView)[i].end <= U64_MAX
    decreases |segments|
  {
    var n := |segments| - 1;
    assert Sound(segments[n], size);
    if i < |Spans(segments[..n], LinkedView)| {
      LinkedBelow(segments[..n], size, i);
    }
  }
}
