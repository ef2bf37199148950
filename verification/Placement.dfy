/** Placement of analysed segments into physical memory, with the payload in the same memory. */
module Placement {
  import opened Bytes
  import opened Elf64
  import opened ElfWriter

  /** Where the file bytes of a segment stand, for a payload at `base`. */
  function Source(s: Segment, base: nat): (a: nat) {
    base + s.fileOffset
  }

  predicate InDestination(s: Segment, a: nat) {
    s.loadAddress <= a < End(s)
  }

  predicate Fits(s: Segment, base: nat, size: nat) {
    s.fileSize <= s.memorySize && End(s) <= size && Source(s, base) + s.fileSize <= size
  }

  ghost predicate AllFit(segments: seq<Segment>, base: nat, size: nat) {
    forall i :: 0 <= i < |segments| ==> Fits(segments[i], base, size)
  }

  // ---- Placement on values

  /** The byte a segment wants at one of its addresses: from the file, then zero. */
  function Wanted(memory: seq<byte>, s: Segment, base: nat, a: nat): (b: byte)
    requires Fits(s, base, |memory|) && InDestination(s, a)
  {
    if a - s.loadAddress < s.fileSize then memory[Source(s, base) + (a - s.loadAddress)] else 0
  }

  /** Memory after one segment has been placed: file bytes, then zeros. */
  function Put(memory: seq<byte>, s: Segment, base: nat): (m: seq<byte>)
    requires Fits(s, base, |memory|)
    ensures |m| == |memory|
  {
    seq(|memory|, a requires 0 <= a < |memory| =>
      if InDestination(s, a) then Wanted(memory, s, base, a) else memory[a])
  }

  function PutAll(memory: seq<byte>, segments: seq<Segment>, base: nat): (m: seq<byte>)
    requires AllFit(segments, base, |memory|)
    ensures |m| == |memory|
  {
    if segments == [] then memory
    else Put(PutAll(memory, segments[..|segments| - 1], base), segments[|segments| - 1], base)
  }

  // ---- What placement should achieve

  /** The segment's memory holds its original file bytes followed by zeros. */
  ghost predicate Holds(was: seq<byte>, memory: seq<byte>, s: Segment, base: nat)
    requires Fits(s, base, |was|) && |memory| == |was|
  {
    forall a: nat :: InDestination(s, a) ==> memory[a] == Wanted(was, s, base, a)
  }

  /** In terms of slices: the file slice of the payload, then zeros. */
  lemma HoldsSlices(was: seq<byte>, memory: seq<byte>, s: Segment, base: nat)
    requires Fits(s, base, |was|) && |memory| == |was|
    ensures Holds(was, memory, s, base) <==>
      memory[s.loadAddress..End(s)] == was[Source(s, base)..Source(s, base) + s.fileSize] +
        Zeros(s.memorySize - s.fileSize)
  {
    var got := memory[s.loadAddress..End(s)];
    var want := was[Source(s, base)..Source(s, base) + s.fileSize] + Zeros(s.memorySize - s.fileSize);
    assert forall x :: 0 <= x < |got| ==> got[x] == memory[s.loadAddress + x];
    if Holds(was, memory, s, base) {
      forall x | 0 <= x < |got| ensures got[x] == want[x] {
        assert InDestination(s, s.loadAddress + x);
      }
    }
    if got == want {
      forall a: nat | InDestination(s, a) ensures memory[a] == Wanted(was, s, base, a) {
        assert got[a - s.loadAddress] == want[a - s.loadAddress];
      }
    }
  }

  ghost predicate Loaded(was: seq<byte>, memory: seq<byte>, segments: seq<Segment>, base: nat)
    requires AllFit(segments, base, |was|) && |memory| == |was|
  {
    forall i :: 0 <= i < |segments| ==> Holds(was, memory, segments[i], base)
  }

  /** First address that placing a segment really writes: a segment already in place only gets zeros. */
  function WriteStart(s: Segment, base: nat): (a: nat) {
    if Source(s, base) == s.loadAddress then s.loadAddress + s.fileSize else s.loadAddress
  }

  predicate Writes(s: Segment, base: nat, a: nat) {
    WriteStart(s, base) <= a < End(s)
  }

  predicate Needs(s: Segment, base: nat, a: nat) {
    Source(s, base) <= a < Source(s, base) + s.fileSize
  }

  function Larger(a: nat, b: nat): (m: nat) {
    if a > b then a else b
  }

  /** Placing `s` writes into the file bytes of `t`. */
  predicate Disturbs(s: Segment, t: Segment, base: nat) {
    var a := Larger(WriteStart(s, base), Source(t, base));
    a < End(s) && a < Source(t, base) + t.fileSize
  }

  lemma DisturbsMeans(s: Segment, t: Segment, base: nat)
    ensures Disturbs(s, t, base) <==> exists a :: Writes(s, base, a) && Needs(t, base, a)
  {
    if Disturbs(s, t, base) {
      var a := Larger(WriteStart(s, base), Source(t, base));
      assert Writes(s, base, a) && Needs(t, base, a);
    }
  }

  /** No segment is placed over file bytes that a later one still needs. */
  ghost predicate Undisturbed(segments: seq<Segment>, base: nat) {
    forall i, j :: 0 <= i < j < |segments| ==> !Disturbs(segments[i], segments[j], base)
  }

  // ---- Proof

  lemma PutWrites(memory: seq<byte>, s: Segment, base: nat, a: nat)
    requires Fits(s, base, |memory|) && a < |memory|
    ensures !Writes(s, base, a) ==> Put(memory, s, base)[a] == memory[a]
    ensures !InDestination(s, a) ==> Put(memory, s, base)[a] == memory[a]
  {
  }

  /** What nothing writes stays. */
  lemma {:induction false} PutAllFrame(memory: seq<byte>, segments: seq<Segment>, base: nat, a: nat)
    requires AllFit(segments, base, |memory|) && a < |memory|
    requires forall i :: 0 <= i < |segments| ==> !Writes(segments[i], base, a)
    ensures PutAll(memory, segments, base)[a] == memory[a]
  {
    hide Writes, Fits;
    if segments != [] {
      var n := |segments| - 1;
      PutAllFrame(memory, segments[..n], base, a);
      PutWrites(PutAll(memory, segments[..n], base), segments[n], base, a);
    }
  }

  /** A placed segment keeps its contents while disjoint segments are placed behind it. */
  lemma {:induction false} LaterKeeps(memory: seq<byte>, segments: seq<Segment>, base: nat, j: nat, a: nat)
    requires AllFit(segments, base, |memory|) && Apart(segments) && j < |segments|
    requires InDestination(segments[j], a)
    ensures a < |memory|
    ensures PutAll(memory, segments, base)[a] == Put(PutAll(memory, segments[..j], base), segments[j], base)[a]
    decreases |segments|
  {
    hide Put, Apart;
    var n := |segments| - 1;
    assert Fits(segments[j], base, |memory|);
    if j < n {
      var head := segments[..n];
      HeadApart(segments, n);
      LaterKeeps(memory, head, base, j, a);
      assert head[..j] == segments[..j];
      ApartAt(segments, j, n);
      PutWrites(PutAll(memory, head, base), segments[n], base, a);
    }
  }

  /** The file bytes of a segment are intact when its turn comes. */
  lemma SourceIntact(memory: seq<byte>, segments: seq<Segment>, base: nat, j: nat, a: nat)
    requires AllFit(segments, base, |memory|) && j < |segments| && Needs(segments[j], base, a)
    requires forall i :: 0 <= i < j ==> !Disturbs(segments[i], segments[j], base)
    ensures a < |memory| && PutAll(memory, segments[..j], base)[a] == memory[a]
  {
    hide Disturbs, Writes;
    assert Fits(segments[j], base, |memory|);
    var head := segments[..j];
    forall i | 0 <= i < |head| ensures !Writes(head[i], base, a) {
      DisturbsMeans(segments[i], segments[j], base);
    }
    PutAllFrame(memory, head, base, a);
  }

  lemma UndisturbedHolds(memory: seq<byte>, segments: seq<Segment>, base: nat, j: nat)
    requires AllFit(segments, base, |memory|) && Apart(segments) && j < |segments|
    requires forall i :: 0 <= i < j ==> !Disturbs(segments[i], segments[j], base)
    ensures Fits(segments[j], base, |memory|) && Holds(memory, PutAll(memory, segments, base), segments[j], base)
  {
    hide Disturbs, Apart, PutAll;
    var s := segments[j];
    var before := PutAll(memory, segments[..j], base);
    forall a: nat | InDestination(s, a)
      ensures PutAll(memory, segments, base)[a] == Wanted(memory, s, base, a)
    {
      LaterKeeps(memory, segments, base, j, a);
      if a - s.loadAddress < s.fileSize {
        SourceIntact(memory, segments, base, j, Source(s, base) + (a - s.loadAddress));
      }
    }
  }

  /** A memory of zeros with a single one. */
  function Probe(size: nat, at: nat): (m: seq<byte>)
    ensures |m| == size && forall a :: 0 <= a < size ==> m[a] == if a == at then 1 else 0
  {
    seq(size, a => if a == at then 1 else 0)
  }

  /** Where an earlier segment disturbs a later one, some memory is loaded wrongly. */
  lemma DisturbedFails(segments: seq<Segment>, base: nat, size: nat, i: nat, j: nat)
    requires AllFit(segments, base, size) && Apart(segments) && i < j < |segments|
    requires Disturbs(segments[i], segments[j], base)
    requires forall k, l :: 0 <= k < l < j ==> !Disturbs(segments[k], segments[l], base)
    ensures exists memory: seq<byte> ::
      |memory| == size && !Loaded(memory, PutAll(memory, segments, base), segments, base)
  {
    hide Apart, PutAll, Put;
    var s, t := segments[i], segments[j];
    var a := Larger(WriteStart(s, base), Source(t, base));
    var memory := Probe(size, a);
    var head := segments[..j];
    assert Apart(head) by { HeadApart(segments, j); }
    assert Fits(s, base, size) && Fits(t, base, size);
    UndisturbedHolds(memory, head, base, i);
    var before := PutAll(memory, head, base);
    assert head[i] == s && InDestination(s, a) && before[a] == 0;
    var x := a - Source(t, base);
    LaterKeeps(memory, segments, base, j, t.loadAddress + x);
    PutReads(before, t, base, x);
    assert !Holds(memory, PutAll(memory, segments, base), t, base);
  }

  lemma PutReads(memory: seq<byte>, s: Segment, base: nat, x: nat)
    requires Fits(s, base, |memory|) && x < s.fileSize
    ensures Put(memory, s, base)[s.loadAddress + x] == memory[Source(s, base) + x]
  {
  }

  lemma ApartAt(segments: seq<Segment>, i: nat, j: nat)
    requires Apart(segments) && i < j < |segments|
    ensures !Overlap(segments[i], segments[j])
  {
  }

  lemma HeadApart(segments: seq<Segment>, j: nat)
    requires Apart(segments) && j <= |segments|
    ensures Apart(segments[..j])
  {
  }

  /** The first disturbed segment. */
  lemma {:induction false} FirstDisturbed(segments: seq<Segment>, base: nat, n: nat) returns (i: nat, j: nat)
    requires n <= |segments| && exists i, j :: 0 <= i < j < n && Disturbs(segments[i], segments[j], base)
    ensures i < j < n && Disturbs(segments[i], segments[j], base)
    ensures forall k, l :: 0 <= k < l < j ==> !Disturbs(segments[k], segments[l], base)
  {
    hide Disturbs;
    if exists i, j :: 0 <= i < j < n - 1 && Disturbs(segments[i], segments[j], base) {
      i, j := FirstDisturbed(segments, base, n - 1);
    } else {
      i, j :| 0 <= i < j < n && Disturbs(segments[i], segments[j], base);
    }
  }

  /** Placement loads every memory correctly exactly when no segment is placed over bytes still needed. */
  lemma PlacementExact(segments: seq<Segment>, base: nat, size: nat)
    requires AllFit(segments, base, size) && Apart(segments)
    ensures Undisturbed(segments, base) <==>
      forall memory: seq<byte> :: |memory| == size ==> Loaded(memory, PutAll(memory, segments, base), segments, base)
  {
    hide Disturbs, Apart, PutAll, Holds;
    if Undisturbed(segments, base) {
      forall memory: seq<byte> | |memory| == size
        ensures Loaded(memory, PutAll(memory, segments, base), segments, base)
      {
        forall j | 0 <= j < |segments| ensures Holds(memory, PutAll(memory, segments, base), segments[j], base) {
          UndisturbedHolds(memory, segments, base, j);
        }
      }
    } else {
      var i, j := FirstDisturbed(segments, base, |segments|);
      DisturbedFails(segments, base, size, i, j);
    }
  }

  // ---- Placement in memory

  /** A range of physical memory. */
  datatype Range = Range(base: nat, size: nat)

  predicate Within(r: Range, size: nat) {
    r.base + r.size <= size
  }

  /** The segment lies in the window and in the payload, and is in place already or clear of its own file bytes. */
  predicate Placeable(s: Segment, window: Range, payload: Range) {
    && window.base <= s.loadAddress && End(s) <= window.base + window.size
    && s.fileOffset + s.fileSize <= payload.size && s.fileSize <= s.memorySize
    && (Source(s, payload.base) == s.loadAddress ||
        Source(s, payload.base) >= End(s) || s.loadAddress >= Source(s, payload.base) + s.fileSize)
  }

  method Zero(memory: array<byte>, from: nat, count: nat)
    requires from + count <= memory.Length
    modifies memory
    ensures forall a :: 0 <= a < memory.Length ==> memory[a] == if from <= a < from + count then 0 else old(memory[a])
  {
    for i := 0 to count
      invariant forall a :: 0 <= a < memory.Length ==> memory[a] == if from <= a < from + i then 0 else old(memory[a])
    {
      memory[from + i] := 0;
    }
  }

  method Copy(memory: array<byte>, to: nat, from: nat, count: nat)
    requires to + count <= memory.Length && from + count <= memory.Length && (to + count <= from || from + count <= to)
    modifies memory
    ensures forall a :: 0 <= a < memory.Length ==>
      memory[a] == if to <= a < to + count then old(memory[from + (a - to)]) else old(memory[a])
  {
    for i := 0 to count
      invariant forall a :: 0 <= a < memory.Length ==>
        memory[a] == if to <= a < to + i then old(memory[from + (a - to)]) else old(memory[a])
    {
      assert memory[from + i] == old(memory[from + i]);
      memory[to + i] := memory[from + i];
    }
  }

  /** Copy one segment's file bytes to its destination and clear the rest. */
  method PlaceSegment(memory: array<byte>, s: Segment, window: Range, payload: Range)
    requires Within(window, memory.Length) && Within(payload, memory.Length) && Placeable(s, window, payload)
    modifies memory
    ensures memory[..] == Put(old(memory[..]), s, payload.base)
  {
    var source, destination := payload.base + s.fileOffset, s.loadAddress;
    ghost var was := memory[..];
    if source == destination {
      Zero(memory, destination + s.fileSize, s.memorySize - s.fileSize);
    } else {
      Zero(memory, destination, s.memorySize);
      assert forall a :: source <= a < source + s.fileSize ==> memory[a] == was[a];
      Copy(memory, destination, source, s.fileSize);
    }
    assert forall a :: 0 <= a < memory.Length ==> memory[a] == Put(was, s, payload.base)[a];
  }

  lemma PlaceableFits(s: Segment, window: Range, payload: Range, size: nat)
    requires Placeable(s, window, payload) && Within(window, size) && Within(payload, size)
    ensures Fits(s, payload.base, size)
  {
  }

  /** The segment with its runtime address filled in. */
  function Ran(s: Segment): (r: Segment) {
    s.(runtimeAddress := s.loadAddress)
  }

  ghost predicate AllPlaceable(segments: seq<Segment>, window: Range, payload: Range) {
    forall i :: 0 <= i < |segments| ==> Placeable(segments[i], window, payload)
  }

  /** Copy every segment of a plan into the window; `synced(i)` is the cache operation's answer for segment `i`. */
  method PlacePayload(memory: array<byte>, window: Range, payload: Range, plan: DirectLoadPlan, synced: nat -> bool)
      returns (ok: bool)
    requires plan.Valid() && Within(window, memory.Length) && Within(payload, memory.Length) && memory.Length <= U64_MAX
    modifies memory, plan, plan.segments
    ensures plan.Valid() && plan.count == old(plan.count)
    ensures ok <==> AllPlaceable(old(plan.List()), window, payload) && forall i :: 0 <= i < plan.count ==> synced(i)
    ensures ok ==> AllFit(old(plan.List()), payload.base, memory.Length)
    ensures ok ==> memory[..] == PutAll(old(memory[..]), old(plan.List()), payload.base)
    ensures ok ==> forall i :: 0 <= i < plan.count ==> plan.segments[i] == Ran(old(plan.List())[i])
    ensures ok ==>
      plan.at == old(plan.at).(runtimeEntry := plan.at.entryLoad, runtimeBase := plan.at.loadBase,
        runtimeEnd := plan.at.loadEnd, placed := true)
    ensures !ok ==> plan.at == old(plan.at)
    ensures forall a :: 0 <= a < memory.Length && !(window.base <= a < window.base + window.size) ==>
      memory[a] == old(memory[a])
  {
    hide Put, Placeable, Fits;
    ghost var was, list := memory[..], plan.List();
    var windowEnd := window.base + window.size;
    for i := 0 to plan.count
      invariant plan.Valid() && plan.count == |list| && plan.at == old(plan.at) && plan.segments.Length >= |list|
      invariant AllPlaceable(list[..i], window, payload) && forall k :: 0 <= k < i ==> synced(k)
      invariant AllFit(list[..i], payload.base, memory.Length) && memory[..] == PutAll(was, list[..i], payload.base)
      invariant forall k :: 0 <= k < i ==> plan.segments[k] == Ran(list[k])
      invariant forall k :: i <= k < |list| ==> plan.segments[k] == list[k]
      invariant forall a :: 0 <= a < memory.Length && !(window.base <= a < windowEnd) ==> memory[a] == was[a]
    {
      var s := plan.segments[i];
      Checks(s, window, payload);
      if s.loadAddress < window.base || s.loadAddress > U64_MAX - s.memorySize
        || s.loadAddress + s.memorySize > windowEnd ||
         s.fileOffset > payload.size || s.fileSize > payload.size - s.fileOffset || s.fileSize > s.memorySize {
        return false;
      }
      var source, destination := payload.base + s.fileOffset, s.loadAddress;
      if source != destination && source < destination + s.memorySize && destination < source + s.fileSize {
        return false;
      }
      PlaceableFits(s, window, payload, memory.Length);
      ghost var before := memory[..];
      PlaceSegment(memory, s, window, payload);
      PutAllNext(was, list, i, payload.base);
      StaysInWindow(before, s, window, payload);
      plan.segments[i] := s.(runtimeAddress := s.loadAddress);
      if !synced(i) {
        return false;
      }
    }
    assert list[..|list|] == list;
    plan.at := plan.at.(runtimeEntry := plan.at.entryLoad, runtimeBase := plan.at.loadBase,
      runtimeEnd := plan.at.loadEnd, placed := true);
    return true;
  }

  lemma Checks(s: Segment, window: Range, payload: Range)
    ensures var source, destination := payload.base + s.fileOffset, s.loadAddress;
      Placeable(s, window, payload) <==>
        && s.loadAddress >= window.base && s.loadAddress + s.memorySize <= window.base + window.size
        && s.fileOffset <= payload.size && s.fileSize <= payload.size - s.fileOffset && s.fileSize <= s.memorySize
        && !(source != destination && source < destination + s.memorySize && destination < source + s.fileSize)
  {
  }

  lemma PutAllNext(memory: seq<byte>, segments: seq<Segment>, i: nat, base: nat)
    requires i < |segments| && AllFit(segments[..i], base, |memory|) && Fits(segments[i], base, |memory|)
    ensures AllFit(segments[..i + 1], base, |memory|)
    ensures PutAll(memory, segments[..i + 1], base) == Put(PutAll(memory, segments[..i], base), segments[i], base)
  {
    assert segments[..i + 1][..i] == segments[..i];
  }

  lemma StaysInWindow(memory: seq<byte>, s: Segment, window: Range, payload: Range)
    requires Within(window, |memory|) && Within(payload, |memory|) && Placeable(s, window, payload)
      && Fits(s, payload.base, |memory|)
    ensures forall a :: 0 <= a < |memory| && !(window.base <= a < window.base + window.size) ==>
      Put(memory, s, payload.base)[a] == memory[a]
  {
  }

  predicate Outside(window: Range, payload: Range) {
    payload.base + payload.size <= window.base || window.base + window.size <= payload.base
  }

  /** A payload outside the window is never disturbed. */
  lemma OutsideIsUndisturbed(segments: seq<Segment>, window: Range, payload: Range)
    requires AllPlaceable(segments, window, payload) && Outside(window, payload)
    ensures Undisturbed(segments, payload.base)
  {
    forall i, j | 0 <= i < j < |segments| ensures !Disturbs(segments[i], segments[j], payload.base) {
      assert Placeable(segments[i], window, payload) && Placeable(segments[j], window, payload);
    }
  }

  // ---- A payload inside the window

  /** Byte 0 of the image goes to address 4, behind it a zero. */
  const FIRST := Segment(0, 1, 2, 0x504, 4, 4, 4, 4, true, false, true)

  /** Byte 4 of the image goes to address 204, behind it two zeros. */
  const SECOND := Segment(4, 1, 3, 0x30c, 204, 204, 204, 8, true, true, false)

  /** A file header with an entry in the first segment. */
  const HEADER := Ehdr(Zeros(9), 2, 183, 0x505, 0x1234, 7, 64, 3, 2)

  /** An image of 176 bytes with the two segments. */
  function Image(): (data: seq<byte>)
    ensures |data| == 176
  {
    ImageBytes(HEADER, [], HeadersFor([FIRST, SECOND]), [])
  }

  /** With the payload inside the window, an image that passes every check can be loaded wrongly. */
  lemma PayloadInWindowFails()
    ensures var window, payload, memory := Range(0, 256), Range(0, 176), Image() + Zeros(80);
      && memory[..176] == Image() && Loadable(Image(), 2)
      && var segments := Segments(Image(), Count(Image()));
         && AllPlaceable(segments, window, payload) && AllFit(segments, 0, 256) && !Undisturbed(segments, 0)
         && !Loaded(memory, PutAll(memory, segments, 0), segments, 0)
  {
    hide Loadable, Segments, Count, Image, ImageBytes;
    ImageIsLoadable();
    var segments := Segments(Image(), Count(Image()));
    var memory := Image() + Zeros(80);
    assert Disturbs(segments[0], segments[1], 0);
    assert segments[..1] == [FIRST] && [FIRST][..0] == [];
    assert PutAll(memory, [], 0) == memory && PutAll(memory, [FIRST], 0) == Put(memory, FIRST, 0);
    var before := Put(memory, FIRST, 0);
    assert InDestination(FIRST, 4) && before[4] == memory[0] == Image()[0];
    assert InDestination(SECOND, 204) && Put(before, SECOND, 0)[204] == before[4];
    assert Wanted(memory, SECOND, 0, 204) == memory[4] == Image()[4];
    ImageStart();
    assert !Holds(memory, PutAll(memory, segments, 0), segments[1], 0);
  }

  lemma ImageIsLoadable()
    ensures Tabled(Image()) && Loadable(Image(), 2) && Segments(Image(), Count(Image())) == [FIRST, SECOND]
  {
    hide ImageBytes, Loadable, Segments, Count, Tabled, Writable, Elf64.Apart, HasEntry;
    ImageWritable();
    WrittenIsLoadable(HEADER, [], [FIRST, SECOND], [], 2);
  }

  lemma ImageWritable()
    ensures Writable(FIRST, 176) && Writable(SECOND, 176)
    ensures Elf64.Apart([FIRST, SECOND]) && HasEntry([FIRST, SECOND], HEADER.entry)
  {
    assert PowerOfTwo(2) && PowerOfTwo(4) && PowerOfTwo(8);
    assert HoldsEntry([FIRST, SECOND][0], 0x505);
  }

  lemma ImageStart()
    ensures Image()[0] == 0x7f && Image()[4] == 2
  {
    hide TableBytes, EhdrBack, ToLe;
    var table := TableBytes(HeadersFor([FIRST, SECOND]));
    var front := EhdrBytes(HEADER, 64, 2);
    EhdrFrontReads(HEADER);
    EhdrReads(HEADER, 64, 2);
    assert front[..24][..7][0] == 0x7f && front[..24][..7][4] == 2;
    assert Image() == front + [] + table + [];
  }

  /** Analyse an image that lies in memory and place it, as the boot manager does. */
  method LoadImage(memory: array<byte>, window: Range, payload: Range, plan: DirectLoadPlan, synced: nat -> bool)
      returns (ok: bool)
    requires plan.Valid() && Within(window, memory.Length) && Within(payload, memory.Length) && memory.Length <= U64_MAX
    modifies memory, plan, plan.segments
    ensures var data := old(memory[payload.base..payload.base + payload.size]);
      ok <==> Loadable(data, plan.segments.Length) && AllPlaceable(Segments(data, Count(data)), window, payload)
              && forall i :: 0 <= i < |Segments(data, Count(data))| ==> synced(i)
    ensures var data := old(memory[payload.base..payload.base + payload.size]);
      ok ==>
        && plan.Valid() && Tabled(data) && plan.List() == Segments(data, Count(data)) && plan.at.placed
           && Apart(plan.List())
             && EntryPlaced(plan.List(), EntryPoint(data), plan.at.runtimeEntry)
    ensures ok ==> && AllFit(plan.List(), payload.base, memory.Length)
                   && memory[..] == PutAll(old(memory[..]), plan.List(), payload.base)
                   && (Undisturbed(plan.List(), payload.base) || Outside(window, payload)
                       ==> Loaded(old(memory[..]), memory[..], plan.List(), payload.base))
    ensures forall a :: 0 <= a < memory.Length && !(window.base <= a < window.base + window.size) ==>
      memory[a] == old(memory[a])
  {
    hide Put, PutAll, Placeable, Fits, Apart, Loadable, Segments, EntryPlaced, AllSound, Hull, Sound, Undisturbed,
      Tabled;
    var data := memory[payload.base..payload.base + payload.size];
    ghost var was := memory[..];
    var status := Analyze(data, plan);
    if status != OK {
      return false;
    }
    ghost var list := plan.List();
    ok := PlacePayload(memory, window, payload, plan, synced);
    if ok {
      if Outside(window, payload) {
        OutsideIsUndisturbed(list, window, payload);
      }
      PlacementExact(list, payload.base, memory.Length);
      RanAlready(list, |data|, plan.List());
    }
  }

  lemma RanAlready(list: seq<Segment>, size: nat, ran: seq<Segment>)
    requires AllSound(list, size) && |ran| == |list| && forall i :: 0 <= i < |list| ==> ran[i] == Ran(list[i])
    ensures ran == list
  {
    forall i | 0 <= i < |list| ensures ran[i] == list[i] {
      assert Sound(list[i], size);
    }
  }
}
