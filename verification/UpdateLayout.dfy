/** The A/B update media layout: calculation, identity record and its independent decoder. */
module UpdateLayout {
  import opened Bytes
  import opened Records

  const REGIONS: nat := 11
  const SLOT_A: nat := 4
  const SLOT_B: nat := 6
  const METADATA_BYTES: nat := 512
  const ALIGNMENT_MAXIMUM: nat := 0x4000_0000

  datatype Region = Region(kind: nat, offset: word, length: word)

  /** The source document of a layout. */
  datatype Source = Source(
    alignment: nat, bootloader: nat, guard: nat, recovery: nat, slot: nat, metadata: nat, journal: nat,
    capacity: nat, minimumTail: nat)

  predicate Positive(v: nat) {
    1 <= v <= U64_MAX
  }

  /** What the source parser lets through. */
  predicate Accepted(m: Source) {
    && Positive(m.alignment) && Positive(m.bootloader) && Positive(m.guard) && Positive(m.recovery) && Positive(m.slot)
    && Positive(m.metadata) && Positive(m.journal) && Positive(m.capacity) && Positive(m.minimumTail)
    && PowerOfTwo(m.alignment) && m.alignment <= ALIGNMENT_MAXIMUM
    && m.capacity % m.alignment == 0 && m.metadata >= 2 * METADATA_BYTES
  }

  // ---- Rounding

  /** Clear the bits below a power of two. */
  function ClearLow(x: nat, a: nat): (r: nat) {
    if a <= 1 then x else 2 * ClearLow(x / 2, a / 2)
  }

  /** The least multiple of `a` that is not below `v`. */
  function Rounded(v: nat, a: nat): (r: nat)
    requires a > 0
    ensures v <= r < v + a
  {
    if v % a == 0 then v else v - v % a + a
  }

  lemma {:induction false} ModUnique(x: int, a: int, q: int, r: int)
    requires a > 0 && x == q * a + r && 0 <= r < a
    ensures x % a == r && x / a == q
  {
    var d := x / a - q;
    assert d * a == r - x % a;
    MulGap(d, a);
  }

  lemma MulGap(d: int, a: int)
    requires a > 0
    ensures d > 0 ==> d * a >= a
    ensures d < 0 ==> d * a <= -a
  {
  }

  /** Two different multiples are at least one unit apart. */
  lemma MultiplesApart(x: nat, y: nat, a: nat)
    requires a > 0 && x % a == 0 && y % a == 0 && x < y
    ensures x + a <= y
  {
    var p, q := x / a, y / a;
    assert x == p * a && y == q * a;
    assert (q - p) * a == y - x;
    MulGap(q - p, a);
  }

  lemma ModDouble(x: nat, b: nat)
    requires b > 0
    ensures x % (2 * b) == 2 * ((x / 2) % b) + x % 2
  {
    var y := x / 2;
    var q, r := y / b, y % b;
    assert y == q * b + r;
    assert x == q * (2 * b) + (2 * r + x % 2);
    ModUnique(x, 2 * b, q, 2 * r + x % 2);
  }

  lemma {:induction false} ClearLowIs(x: nat, a: nat)
    requires PowerOfTwo(a)
    ensures ClearLow(x, a) == x - x % a
  {
    if a > 1 {
      ClearLowIs(x / 2, a / 2);
      ModDouble(x, a / 2);
    }
  }

  lemma ModAdd(x: nat, y: nat, a: nat)
    requires a > 0 && x % a == 0 && y % a == 0
    ensures (x + y) % a == 0
  {
    assert x == (x / a) * a && y == (y / a) * a;
    ModUnique(x + y, a, x / a + y / a, 0);
  }

  lemma RoundedIsMultiple(v: nat, a: nat)
    requires a > 0
    ensures Rounded(v, a) % a == 0
  {
    var q := v / a;
    assert v == q * a + v % a;
    if v % a != 0 {
      assert Rounded(v, a) == (q + 1) * a + 0;
      ModUnique(Rounded(v, a), a, q + 1, 0);
    }
  }

  /** Adding and masking is rounding up. */
  lemma MaskRounds(v: nat, a: nat)
    requires a > 0 && PowerOfTwo(a)
    ensures ClearLow(v + a - 1, a) == Rounded(v, a)
  {
    hide PowerOfTwo, ClearLow;
    ClearLowIs(v + a - 1, a);
    var q, r := v / a, v % a;
    assert v == q * a + r;
    if r == 0 {
      ModUnique(v + a - 1, a, q, a - 1);
    } else {
      assert v + a - 1 == (q + 1) * a + (r - 1);
      ModUnique(v + a - 1, a, q + 1, r - 1);
    }
  }

  lemma {:induction false} DividesWord(a: nat, k: nat)
    requires PowerOfTwo(a) && a <= Pow2(k)
    ensures Pow2(k) % a == 0
  {
    if a > 1 && k > 0 {
      DividesWord(a / 2, k - 1);
      ModDouble(Pow2(k), a / 2);
    }
  }

  lemma WordIsPow2()
    ensures Pow2(64) == U64_MAX + 1
  {
    assert Pow2(8) == 0x100;
    assert Pow2(16) == 0x1_0000;
    assert Pow2(24) == 0x100_0000;
    assert Pow2(32) == 0x1_0000_0000;
    assert Pow2(40) == 0x100_0000_0000;
    assert Pow2(48) == 0x1_0000_0000_0000;
    assert Pow2(56) == 0x100_0000_0000_0000;
  }

  /** A scalar whose mask addition would wrap rounds up beyond every 64-bit capacity. */
  lemma WrapIsTooLarge(v: nat, a: nat)
    requires a > 0 && PowerOfTwo(a) && a <= ALIGNMENT_MAXIMUM && v > U64_MAX - (a - 1)
    ensures Rounded(v, a) > U64_MAX
  {
    hide PowerOfTwo, Pow2;
    WordIsPow2();
    DividesWord(a, 64);
    RoundedIsMultiple(v, a);
    if Rounded(v, a) <= U64_MAX {
      MultiplesApart(Rounded(v, a), U64_MAX + 1, a);
    }
  }

  // ---- The layout

  function Requested(m: Source): (r: seq<nat>) {
    [m.bootloader, m.guard, m.recovery, m.guard, m.slot, m.guard, m.slot, m.guard, m.metadata, m.journal]
  }

  function Sum(s: seq<nat>): (n: nat) {
    if s == [] then 0 else Sum(s[..|s| - 1]) + s[|s| - 1]
  }

  function RoundAll(s: seq<nat>, a: nat): (t: seq<nat>)
    requires a > 0
    ensures |t| == |s|
  {
    seq(|s|, i requires 0 <= i < |s| => Rounded(s[i], a))
  }

  /** The rounded regions and the rounded least tail fit the medium. */
  predicate Fits(m: Source)
    requires m.alignment > 0
  {
    Sum(RoundAll(Requested(m), m.alignment)) + Rounded(m.minimumTail, m.alignment) <= m.capacity
  }

  predicate StepAt(regions: seq<Region>, i: nat)
    requires i + 1 < |regions|
  {
    regions[i + 1].offset == regions[i].offset + regions[i].length
  }

  predicate RegionOk(r: Region, i: nat, a: nat)
    requires a > 0
  {
    r.kind == i + 1 && r.length > 0 && r.offset % a == 0 && r.length % a == 0
  }

  /** The eleven regions cover the medium without gap or overlap, aligned, with equal slots. */
  ghost predicate Tiling(regions: seq<Region>, capacity: nat, a: nat) {
    && a > 0 && |regions| == REGIONS && regions[0].offset == 0
    && (forall i :: 0 <= i < REGIONS - 1 ==> StepAt(regions, i))
    && (forall i :: 0 <= i < REGIONS ==> RegionOk(regions[i], i, a))
    && regions[REGIONS - 1].offset + regions[REGIONS - 1].length == capacity
    && regions[SLOT_A].length == regions[SLOT_B].length
  }

  /** Every region is at least as long as asked for and no rounding wastes a whole unit. */
  ghost predicate Serves(regions: seq<Region>, m: Source) {
    && |regions| == REGIONS && regions[REGIONS - 1].length >= m.minimumTail
    && forall i :: 0 <= i < REGIONS - 1 ==> Requested(m)[i] <= regions[i].length < Requested(m)[i] + m.alignment
  }

  /** The length covers the request and wastes less than one unit. */
  predicate Covers(length: nat, request: nat, a: nat) {
    request <= length < request + a
  }

  /** Region by region: boot loader, recovery and both slots, each with a guard gap behind it, then metadata, journal
      and the tail. */
  predicate Named(regions: seq<Region>, m: Source) {
    && |regions| == 11 && Covers(regions[0].length, m.bootloader, m.alignment)
    && Covers(regions[2].length, m.recovery, m.alignment)
    && Covers(regions[4].length, m.slot, m.alignment) && Covers(regions[6].length, m.slot, m.alignment)
    && Covers(regions[8].length, m.metadata, m.alignment) && Covers(regions[9].length, m.journal, m.alignment)
    && Covers(regions[1].length, m.guard, m.alignment) && Covers(regions[3].length, m.guard, m.alignment)
    && Covers(regions[5].length, m.guard, m.alignment) && Covers(regions[7].length, m.guard, m.alignment)
    && regions[10].length >= m.minimumTail
  }

  lemma ServesNamed(regions: seq<Region>, m: Source)
    requires Serves(regions, m)
    ensures Named(regions, m)
  {
    var q := Requested(m);
    assert forall i :: 0 <= i < 10 ==> Covers(regions[i].length, q[i], m.alignment);
  }

  // ---- Sums

  lemma {:induction false} SumGrows(s: seq<nat>, i: nat)
    requires i <= |s|
    ensures Sum(s[..i]) <= Sum(s)
    decreases |s|
  {
    if i < |s| {
      var t := s[..|s| - 1];
      SumGrows(t, i);
      assert t[..i] == s[..i];
    } else {
      assert s[..i] == s;
    }
  }

  lemma SumNext(s: seq<nat>, i: nat)
    requires i < |s|
    ensures Sum(s[..i + 1]) == Sum(s[..i]) + s[i]
  {
    assert s[..i + 1][..i] == s[..i];
  }

  lemma SumHolds(s: seq<nat>, i: nat)
    requires i < |s|
    ensures s[i] <= Sum(s)
  {
    SumNext(s, i);
    SumGrows(s, i + 1);
  }

  ghost predicate Multiples(s: seq<nat>, a: nat)
    requires a > 0
  {
    forall i :: 0 <= i < |s| ==> s[i] % a == 0
  }

  lemma {:induction false} SumMultiple(s: seq<nat>, a: nat)
    requires a > 0 && Multiples(s, a)
    ensures Sum(s) % a == 0
  {
    if s != [] {
      SumMultiple(s[..|s| - 1], a);
      ModAdd(Sum(s[..|s| - 1]), s[|s| - 1], a);
    }
  }

  ghost predicate Small(s: seq<nat>) {
    forall i :: 0 <= i <= |s| ==> Sum(s[..i]) <= U64_MAX
  }

  lemma SumSmall(s: seq<nat>)
    requires Sum(s) <= U64_MAX
    ensures Small(s) && forall i :: 0 <= i < |s| ==> s[i] <= U64_MAX
  {
    forall i | 0 <= i <= |s| ensures Sum(s[..i]) <= U64_MAX { SumGrows(s, i); }
    forall i | 0 <= i < |s| ensures s[i] <= U64_MAX { SumHolds(s, i); }
  }

  /** Regions of the given lengths, one behind the other. */
  ghost predicate Placed(regions: seq<Region>, lengths: seq<nat>) {
    && |regions| <= |lengths|
    && forall i :: 0 <= i < |regions| ==> && regions[i].kind == i + 1 && regions[i].length == lengths[i]
                                          && regions[i].offset == Sum(lengths[..i])
  }

  lemma PlacedTiles(regions: seq<Region>, lengths: seq<nat>, capacity: nat, a: nat)
    requires a > 0 && |regions| == |lengths| == REGIONS && Placed(regions, lengths) && Multiples(lengths, a)
    requires Sum(lengths) == capacity && lengths[SLOT_A] == lengths[SLOT_B] && forall i :: 0 <= i < REGIONS ==>
      lengths[i] > 0
    ensures Tiling(regions, capacity, a)
  {
    hide Sum;
    SumNothing();
    assert lengths[..0] == [];
    forall i | 0 <= i < REGIONS - 1 ensures StepAt(regions, i) {
      SumNext(lengths, i);
    }
    forall i | 0 <= i < REGIONS ensures RegionOk(regions[i], i, a) {
      SumMultiple(lengths[..i], a);
    }
    SumNext(lengths, REGIONS - 1);
    assert lengths[..REGIONS] == lengths;
  }

  lemma SumNothing()
    ensures Sum([]) == 0
  {
  }

  // ---- The calculation

  method AlignUp(v: nat, a: nat) returns (r: Option<nat>)
    requires a > 0 && PowerOfTwo(a)
    ensures r == if v > U64_MAX - (a - 1) then None else Some(Rounded(v, a))
  {
    if v > U64_MAX - (a - 1) {
      return None;
    }
    MaskRounds(v, a);
    return Some(ClearLow(v + a - 1, a));
  }

  /** Round every requested length; a scalar that wraps means the layout cannot fit. */
  method AlignAll(m: Source) returns (r: Option<seq<nat>>)
    requires Accepted(m)
    ensures r.None? ==> !Fits(m)
    ensures r.Some? ==> r.value == RoundAll(Requested(m), m.alignment)
  {
    hide PowerOfTwo, Sum;
    var requested, a := Requested(m), m.alignment;
    var lengths: seq<nat> := [];
    for i := 0 to |requested|
      invariant lengths == RoundAll(requested, a)[..i]
    {
      var aligned := AlignUp(requested[i], a);
      if aligned.None? {
        WrapIsTooLarge(requested[i], a);
        SumHolds(RoundAll(requested, a), i);
        return None;
      }
      lengths := lengths + [aligned.value];
    }
    return Some(lengths);
  }

  /** Lay the regions out one behind the other. */
  method PlaceRegions(lengths: seq<nat>) returns (regions: seq<Region>)
    requires Sum(lengths) <= U64_MAX
    ensures |regions| == |lengths| && Placed(regions, lengths)
  {
    hide Sum;
    SumSmall(lengths);
    SumNothing();
    regions := [];
    var offset := 0;
    for i := 0 to |lengths|
      invariant |regions| == i && Placed(regions, lengths) && offset == Sum(lengths[..i])
    {
      SumNext(lengths, i);
      regions := regions + [Region(i + 1, offset, lengths[i])];
      offset := offset + lengths[i];
    }
  }

  /** The canonical layout exists exactly when the rounded regions fit the medium. */
  method CalculateLayout(m: Source) returns (r: Option<seq<Region>>)
    requires Accepted(m)
    ensures r.Some? <==> Fits(m)
    ensures r.Some? ==> Tiling(r.value, m.capacity, m.alignment) && Serves(r.value, m) && Named(r.value, m)
  {
    hide PowerOfTwo, Sum, Tiling, Placed, Named, Serves;
    var a := m.alignment;
    var aligned := AlignAll(m);
    if aligned.None? {
      return None;
    }
    var lengths := aligned.value;
    var tail := AlignUp(m.minimumTail, a);
    if tail.None? {
      WrapIsTooLarge(m.minimumTail, a);
      return None;
    }
    var prefix := SumOf(lengths);
    if prefix > U64_MAX || tail.value > U64_MAX - prefix || prefix + tail.value > m.capacity {
      return None;
    }
    LayoutTiles(m, lengths);
    lengths := lengths + [m.capacity - prefix];
    var regions := PlaceRegions(lengths);
    LayoutServes(m, lengths, regions);
    ServesNamed(regions, m);
    return Some(regions);
  }

  method SumOf(s: seq<nat>) returns (n: nat)
    ensures n == Sum(s)
  {
    n := 0;
    for i := 0 to |s|
      invariant n == Sum(s[..i])
    {
      SumNext(s, i);
      n := n + s[i];
    }
    assert s[..|s|] == s;
  }

  lemma LayoutTiles(m: Source, lengths: seq<nat>)
    requires Accepted(m) && lengths == RoundAll(Requested(m), m.alignment) && Fits(m)
    ensures var all := lengths + [m.capacity - Sum(lengths)];
      && |all| == REGIONS && Sum(all) == m.capacity && Multiples(all, m.alignment) && all[SLOT_A] == all[SLOT_B]
      && forall i :: 0 <= i < REGIONS ==> all[i] > 0
  {
    hide Sum, PowerOfTwo;
    var a, n := m.alignment, |lengths|;
    var all := lengths + [m.capacity - Sum(lengths)];
    assert all[..n] == lengths && all[..n + 1] == all;
    SumNext(all, n);
    forall i | 0 <= i < n ensures all[i] % a == 0 && all[i] > 0 {
      RoundedIsMultiple(Requested(m)[i], a);
    }
    SumMultiple(lengths, a);
    ModSub(m.capacity, Sum(lengths), a);
  }

  lemma ModSub(x: nat, y: nat, a: nat)
    requires a > 0 && x % a == 0 && y % a == 0 && y <= x
    ensures (x - y) % a == 0
  {
    assert x == (x / a) * a && y == (y / a) * a;
    ModUnique(x - y, a, x / a - y / a, 0);
  }

  lemma LayoutServes(m: Source, lengths: seq<nat>, regions: seq<Region>)
    requires Accepted(m) && Fits(m) && |regions| == |lengths| == REGIONS && Placed(regions, lengths)
    requires lengths[..REGIONS - 1] == RoundAll(Requested(m), m.alignment)
    requires Sum(lengths) == m.capacity && Multiples(lengths, m.alignment) && lengths[SLOT_A] == lengths[SLOT_B]
    requires forall i :: 0 <= i < REGIONS ==> lengths[i] > 0
    ensures Tiling(regions, m.capacity, m.alignment) && Serves(regions, m)
  {
    hide Sum, PowerOfTwo, Tiling;
    PlacedTiles(regions, lengths, m.capacity, m.alignment);
    forall i | 0 <= i < REGIONS - 1 ensures Requested(m)[i] <= regions[i].length < Requested(m)[i] + m.alignment {
      assert lengths[i] == lengths[..REGIONS - 1][i];
    }
    SumNext(lengths, REGIONS - 1);
    assert lengths[..REGIONS] == lengths;
  }
}
