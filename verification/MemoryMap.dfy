/**
 Normalization of physical memory maps: insertion sort and adjacent merge, both in
 place, and the canonical form they compute.
 */
module MemoryMap {
  import opened Bytes

  const USABLE: nat := 1

  datatype Region = Region(base: word, length: word, kind: nat, attributes: word)

  datatype Status = OK | BAD_ARGUMENT | OVERFLOW | OUT_OF_CAPACITY | OVERLAP

  datatype Class = Class(kind: nat, attributes: word)

  function ClassOf(r: Region): (c: Class) {
    Class(r.kind, r.attributes)
  }

  function End(r: Region): (e: nat) {
    r.base + r.length
  }

  /** Non-empty, with a representable exclusive end. */
  predicate IsValid(r: Region) {
    r.length != 0 && !(r.base > U64_MAX - r.length)
  }

  ghost predicate AllValid(s: seq<Region>) {
    forall i :: 0 <= i < |s| ==> IsValid(s[i])
  }

  // ---- What a list of regions means

  /** Address `a` belongs to a region of class `c`. */
  ghost predicate Covers(s: seq<Region>, a: int, c: Class) {
    exists i :: 0 <= i < |s| && s[i].base <= a < End(s[i]) && ClassOf(s[i]) == c
  }

  /** Two lists describe the same address map. */
  ghost predicate SameMap(s: seq<Region>, t: seq<Region>) {
    forall a: int, c: Class :: Covers(s, a, c) <==> Covers(t, a, c)
  }

  predicate Intersect(r: Region, q: Region) {
    r.base < End(q) && q.base < End(r)
  }

  ghost predicate Overlapping(s: seq<Region>) {
    exists i, j :: 0 <= i < j < |s| && Intersect(s[i], s[j])
  }

  ghost predicate Hits(s: seq<Region>, r: Region) {
    exists i :: 0 <= i < |s| && Intersect(s[i], r)
  }

  function Usable(s: seq<Region>): (total: nat) {
    if s == [] then 0
    else Usable(s[..|s| - 1]) + (if s[|s| - 1].kind == USABLE then s[|s| - 1].length else 0)
  }

  ghost predicate Sorted(s: seq<Region>) {
    forall i, j :: 0 <= i < j < |s| ==> s[i].base <= s[j].base
  }

  predicate Apart(r: Region, q: Region) {
    End(r) <= q.base && (End(r) == q.base ==> ClassOf(r) != ClassOf(q))
  }

  predicate ApartAt(s: seq<Region>, i: nat)
    requires i + 1 < |s|
  {
    Apart(s[i], s[i + 1])
  }

  /** Sorted, disjoint and maximally merged. */
  ghost predicate Canonical(s: seq<Region>) {
    AllValid(s) && forall i :: 0 <= i < |s| - 1 ==> ApartAt(s, i)
  }

  // ---- The canonical form is unique

  lemma {:induction false} CanonicalOrder(s: seq<Region>, i: nat, j: nat)
    requires Canonical(s) && i < j < |s|
    ensures End(s[i]) <= s[j].base
    decreases j - i
  {
    assert ApartAt(s, j - 1);
    if i < j - 1 {
      CanonicalOrder(s, i, j - 1);
    }
  }

  lemma CoversAt(s: seq<Region>, i: nat, a: int)
    requires i < |s| && s[i].base <= a < End(s[i])
    ensures Covers(s, a, ClassOf(s[i]))
  {
  }

  /** Every covered address lies at or behind the first region. */
  lemma FirstIsLeast(s: seq<Region>, a: int, c: Class)
    requires Canonical(s) && Covers(s, a, c)
    ensures |s| > 0 && s[0].base <= a && (a < End(s[0]) ==> c == ClassOf(s[0]))
  {
    var i :| 0 <= i < |s| && s[i].base <= a < End(s[i]) && ClassOf(s[i]) == c;
    if i > 0 {
      CanonicalOrder(s, 0, i);
    }
  }

  /** Directly behind the first region its class does not continue. */
  lemma FirstEnds(s: seq<Region>)
    requires Canonical(s) && |s| > 0
    ensures !Covers(s, End(s[0]), ClassOf(s[0]))
  {
    if Covers(s, End(s[0]), ClassOf(s[0])) {
      var i :| 0 <= i < |s| && s[i].base <= End(s[0]) < End(s[i]) && ClassOf(s[i]) == ClassOf(s[0]);
      assert ApartAt(s, 0);
      if i > 1 {
        CanonicalOrder(s, 1, i);
      }
    }
  }

  lemma FirstNotLonger(s: seq<Region>, t: seq<Region>)
    requires Canonical(s) && Canonical(t) && SameMap(s, t) && |s| > 0
    ensures |t| > 0 && t[0].base <= s[0].base && ClassOf(t[0]) == ClassOf(s[0])
    ensures t[0].base == s[0].base ==> End(t[0]) <= End(s[0])
  {
    CoversAt(s, 0, s[0].base);
    FirstIsLeast(t, s[0].base, ClassOf(s[0]));
    CoversAt(t, 0, t[0].base);
    FirstIsLeast(s, t[0].base, ClassOf(t[0]));
    if t[0].base == s[0].base && End(t[0]) > End(s[0]) {
      CoversAt(t, 0, End(s[0]));
      FirstEnds(s);
    }
  }

  lemma RestCovers(s: seq<Region>, a: int, c: Class)
    requires Canonical(s) && |s| > 0
    ensures Canonical(s[1..])
    ensures Covers(s[1..], a, c) <==> Covers(s, a, c) && a >= End(s[0])
  {
    var rest := s[1..];
    forall i | 0 <= i < |rest| - 1 ensures ApartAt(rest, i) {
      assert ApartAt(s, i + 1);
    }
    if Covers(rest, a, c) {
      var i :| 0 <= i < |rest| && rest[i].base <= a < End(rest[i]) && ClassOf(rest[i]) == c;
      assert s[i + 1] == rest[i];
      CanonicalOrder(s, 0, i + 1);
    }
    if Covers(s, a, c) && a >= End(s[0]) {
      var i :| 0 <= i < |s| && s[i].base <= a < End(s[i]) && ClassOf(s[i]) == c;
      assert rest[i - 1] == s[i];
    }
  }

  /** An address map has at most one canonical list. */
  lemma {:induction false} CanonicalUnique(s: seq<Region>, t: seq<Region>)
    requires Canonical(s) && Canonical(t) && SameMap(s, t)
    ensures s == t
    decreases |s|
  {
    if |s| == 0 {
      if |t| > 0 { CoversAt(t, 0, t[0].base); }
    } else {
      hide Canonical, Covers;
      FirstNotLonger(s, t);
      FirstNotLonger(t, s);
      assert s[0] == t[0];
      forall a: int, c: Class ensures Covers(s[1..], a, c) <==> Covers(t[1..], a, c) {
        RestCovers(s, a, c);
        RestCovers(t, a, c);
      }
      RestCovers(s, 0, ClassOf(s[0]));
      RestCovers(t, 0, ClassOf(t[0]));
      CanonicalUnique(s[1..], t[1..]);
      assert s == [s[0]] + s[1..] && t == [t[0]] + t[1..];
    }
  }

  // ---- Insertion

  /** Where a region goes: behind every region that does not start later. */
  function Position(s: seq<Region>, r: Region): (p: nat)
    ensures p <= |s| && forall k :: 0 <= k < p ==> s[k].base <= r.base
    ensures p < |s| ==> s[p].base > r.base
  {
    if s == [] || s[0].base > r.base then 0 else 1 + Position(s[1..], r)
  }

  function Insert(s: seq<Region>, r: Region): (t: seq<Region>) {
    s[..Position(s, r)] + [r] + s[Position(s, r)..]
  }

  /** The list holds the same regions as the source, sorted. */
  ghost predicate Sorting(source: seq<Region>, s: seq<Region>) {
    && Sorted(s) && |s| == |source|
    && (forall r :: r in s <==> r in source)
    && (Overlapping(s) <==> Overlapping(source))
    && Usable(s) == Usable(source)
  }

  lemma {:induction false} UsableConcat(a: seq<Region>, b: seq<Region>)
    ensures Usable(a + b) == Usable(a) + Usable(b)
    decreases |b|
  {
    if b == [] {
      assert a + b == a;
    } else {
      var n := |b| - 1;
      assert (a + b)[..|a| + n] == a + b[..n];
      UsableConcat(a, b[..n]);
    }
  }

  lemma OverlapGrows(a: seq<Region>, b: seq<Region>, r: Region)
    requires Overlapping(a + b) || Hits(a + b, r)
    ensures Overlapping(a + [r] + b)
  {
    hide Intersect;
    var t, s, n := a + [r] + b, a + b, |a|;
    assert forall k :: 0 <= k < |s| ==> t[if k < n then k else k + 1] == s[k];
    assert t[n] == r;
    if Overlapping(s) {
      var i, j :| 0 <= i < j < |s| && Intersect(s[i], s[j]);
      assert Intersect(t[if i < n then i else i + 1], t[if j < n then j else j + 1]);
    } else {
      var i :| 0 <= i < |s| && Intersect(s[i], r);
      IntersectSwap(s[i], r);
      if i < n { assert Intersect(t[i], t[n]); } else { assert Intersect(t[n], t[i + 1]); }
    }
  }

  lemma IntersectSwap(r: Region, q: Region)
    ensures Intersect(r, q) <==> Intersect(q, r)
  {
  }

  /** Putting one more region anywhere makes an overlap only by hitting a region already there. */
  lemma OverlapInsert(a: seq<Region>, b: seq<Region>, r: Region)
    ensures Overlapping(a + [r] + b) <==> Overlapping(a + b) || Hits(a + b, r)
  {
    hide Intersect;
    var t, s, n := a + [r] + b, a + b, |a|;
    if Overlapping(t) {
      var i, j :| 0 <= i < j < |t| && Intersect(t[i], t[j]);
      IntersectSwap(t[i], t[j]);
      assert forall k :: 0 <= k < |t| && k != n ==> t[k] == s[if k < n then k else k - 1];
      if j == n {
        assert Intersect(s[i], r);
      } else if i == n {
        assert Intersect(s[j - 1], r);
      } else {
        assert Intersect(s[if i < n then i else i - 1], s[if j < n then j else j - 1]);
      }
    }
    if Overlapping(s) || Hits(s, r) {
      OverlapGrows(a, b, r);
    }
  }

  lemma SameHits(s: seq<Region>, t: seq<Region>, r: Region)
    requires forall q :: q in s <==> q in t
    ensures Hits(s, r) <==> Hits(t, r)
  {
    if Hits(s, r) {
      var i :| 0 <= i < |s| && Intersect(s[i], r);
      assert s[i] in t;
    }
    if Hits(t, r) {
      var i :| 0 <= i < |t| && Intersect(t[i], r);
      assert t[i] in s;
    }
  }

  lemma InsertSorted(s: seq<Region>, r: Region)
    requires Sorted(s)
    ensures Sorted(Insert(s, r))
  {
    hide Position;
    var p, t := Position(s, r), Insert(s, r);
    forall i, j | 0 <= i < j < |t| ensures t[i].base <= t[j].base {
      assert t[i] == if i < p then s[i] else if i == p then r else s[i - 1];
      assert t[j] == if j < p then s[j] else if j == p then r else s[j - 1];
    }
  }

  lemma InsertStep(source: seq<Region>, s: seq<Region>, r: Region)
    requires Sorting(source, s)
    ensures Sorting(source + [r], Insert(s, r))
  {
    hide Position, Sorted, Overlapping, Hits, Usable;
    var p, t := Position(s, r), Insert(s, r);
    InsertSorted(s, r);
    var a, b := s[..p], s[p..];
    assert s == a + b && source + [] == source && source + [r] == source + [r] + [];
    OverlapInsert(a, b, r);
    OverlapInsert(source, [], r);
    SameHits(s, source, r);
    UsableConcat(a, b);
    UsableConcat(a, [r]);
    UsableConcat(a + [r], b);
    UsableConcat(source, [r]);
    forall q ensures q in t <==> q in source + [r] {
      assert q in t <==> q in a || q == r || q in b;
      assert q in s <==> q in a || q in b;
    }
  }

  // ---- Merging

  predicate StepAt(s: seq<Region>, i: nat)
    requires i + 1 < |s|
  {
    End(s[i]) <= s[i + 1].base
  }

  ghost predicate Ordered(s: seq<Region>) {
    forall i :: 0 <= i < |s| - 1 ==> StepAt(s, i)
  }

  /** A sorted list has no overlap exactly when no two neighbours overlap. */
  lemma OrderedIsDisjoint(s: seq<Region>)
    requires AllValid(s) && Sorted(s)
    ensures Ordered(s) <==> !Overlapping(s)
  {
    if Overlapping(s) {
      var i, j :| 0 <= i < j < |s| && Intersect(s[i], s[j]);
      assert s[i + 1].base <= s[j].base;
      assert !StepAt(s, i);
    }
    if !Ordered(s) {
      var i :| 0 <= i < |s| - 1 && !StepAt(s, i);
      assert Intersect(s[i], s[i + 1]);
    }
  }

  /** Add a region behind a list, growing the last region when it continues it. */
  function Extend(s: seq<Region>, r: Region): (t: seq<Region>)
    requires IsValid(r)
  {
    if |s| > 0 && End(s[|s| - 1]) == r.base && ClassOf(s[|s| - 1]) == ClassOf(r)
    then s[|s| - 1 := s[|s| - 1].(length := s[|s| - 1].length + r.length)]
    else s + [r]
  }

  function Merged(s: seq<Region>): (t: seq<Region>)
    requires AllValid(s)
  {
    if s == [] then [] else Extend(Merged(s[..|s| - 1]), s[|s| - 1])
  }

  lemma CoversConcat(a: seq<Region>, b: seq<Region>, x: int, c: Class)
    ensures Covers(a + b, x, c) <==> Covers(a, x, c) || Covers(b, x, c)
  {
    var s := a + b;
    if Covers(s, x, c) {
      var i :| 0 <= i < |s| && s[i].base <= x < End(s[i]) && ClassOf(s[i]) == c;
      if i < |a| { assert a[i] == s[i]; } else { assert b[i - |a|] == s[i]; }
    }
    if Covers(a, x, c) {
      var i :| 0 <= i < |a| && a[i].base <= x < End(a[i]) && ClassOf(a[i]) == c;
      assert s[i] == a[i];
    }
    if Covers(b, x, c) {
      var i :| 0 <= i < |b| && b[i].base <= x < End(b[i]) && ClassOf(b[i]) == c;
      assert s[|a| + i] == b[i];
    }
  }

  lemma CoversOne(r: Region, x: int, c: Class)
    ensures Covers([r], x, c) <==> r.base <= x < End(r) && ClassOf(r) == c
  {
    assert [r][0] == r;
  }

  lemma CanonicalAppend(s: seq<Region>, r: Region)
    requires Canonical(s) && IsValid(r) && (|s| > 0 ==> Apart(s[|s| - 1], r))
    ensures Canonical(s + [r])
  {
    var t := s + [r];
    forall i | 0 <= i < |t| - 1 ensures ApartAt(t, i) {
      if i + 1 < |s| { assert ApartAt(s, i); }
    }
  }

  lemma CanonicalPrefix(s: seq<Region>, r: Region)
    requires Canonical(s + [r])
    ensures Canonical(s) && IsValid(r) && (|s| > 0 ==> Apart(s[|s| - 1], r))
  {
    var t := s + [r];
    assert t[|s|] == r;
    forall i | 0 <= i < |s| ensures IsValid(s[i]) { assert t[i] == s[i]; }
    forall i | 0 <= i < |s| - 1 ensures ApartAt(s, i) { assert ApartAt(t, i); }
    if |s| > 0 { assert ApartAt(t, |s| - 1); }
  }

  /** One merge step keeps the form and adds exactly the new region. */
  lemma ExtendIs(s: seq<Region>, r: Region)
    requires Canonical(s) && IsValid(r) && (|s| > 0 ==> End(s[|s| - 1]) <= r.base)
    ensures var t := Extend(s, r);
      Canonical(t) && 0 < |t| <= |s| + 1 && End(t[|t| - 1]) == End(r) && Usable(t) == Usable(s) + Usable([r])
    ensures forall x: int, c: Class :: Covers(Extend(s, r), x, c) <==> Covers(s, x, c) || Covers([r], x, c)
  {
    hide Canonical, Covers, Usable;
    var t := Extend(s, r);
    if |t| == |s| + 1 {
      CanonicalAppend(s, r);
      UsableConcat(s, [r]);
      forall x: int, c: Class ensures Covers(t, x, c) <==> Covers(s, x, c) || Covers([r], x, c) {
        CoversConcat(s, [r], x, c);
      }
    } else {
      var n := |s| - 1;
      var head, last, grown := s[..n], s[n], t[n];
      assert s == head + [last] && t == head + [grown];
      CanonicalPrefix(head, last);
      CanonicalAppend(head, grown);
      UsableConcat(head, [last]);
      UsableConcat(head, [grown]);
      UsableOne(last);
      UsableOne(r);
      UsableOne(grown);
      forall x: int, c: Class ensures Covers(t, x, c) <==> Covers(s, x, c) || Covers([r], x, c) {
        CoversConcat(head, [last], x, c);
        CoversConcat(head, [grown], x, c);
        CoversOne(last, x, c);
        CoversOne(grown, x, c);
        CoversOne(r, x, c);
      }
    }
  }

  lemma UsableOne(r: Region)
    ensures Usable([r]) == if r.kind == USABLE then r.length else 0
  {
    assert [r][..0] == [];
  }

  lemma PrefixOrdered(s: seq<Region>, n: nat)
    requires AllValid(s) && Ordered(s) && n <= |s|
    ensures AllValid(s[..n]) && Ordered(s[..n])
  {
    forall i | 0 <= i < n - 1 ensures StepAt(s[..n], i) {
      assert StepAt(s, i);
    }
  }

  /** Merging an ordered list yields the canonical list of the same map, with the same usable bytes. */
  lemma {:induction false} MergedIs(s: seq<Region>)
    requires AllValid(s) && Ordered(s)
    ensures var t := Merged(s);
      && Canonical(t) && SameMap(s, t) && Usable(t) == Usable(s)
      && |t| <= |s| && (|s| > 0 ==> |t| > 0 && End(t[|t| - 1]) == End(s[|s| - 1]))
  {
    if s == [] {
      NothingMerged();
    } else {
      hide Covers, Usable, Canonical, Extend, Ordered, ClassOf;
      var n := |s| - 1;
      var head, r := s[..n], s[n];
      PrefixOrdered(s, n);
      MergedIs(head);
      if n > 0 { OrderedAt(s, n - 1); }
      assert s == head + [r];
      ExtendIs(Merged(head), r);
      UsableConcat(head, [r]);
      forall x: int, c: Class ensures Covers(s, x, c) <==> Covers(Merged(s), x, c) {
        CoversConcat(head, [r], x, c);
      }
    }
  }

  lemma NothingMerged()
    ensures Canonical([]) && Merged([]) == []
  {
  }

  lemma OrderedAt(s: seq<Region>, i: nat)
    requires Ordered(s) && i + 1 < |s|
    ensures End(s[i]) <= s[i + 1].base
  {
    assert StepAt(s, i);
  }

  /** The usable bytes of a canonical list lie below its last end. */
  lemma {:induction false} CanonicalUsable(s: seq<Region>)
    requires Canonical(s)
    ensures Usable(s) <= if s == [] then 0 else End(s[|s| - 1])
  {
    if s != [] {
      var n := |s| - 1;
      assert s == s[..n] + [s[n]];
      CanonicalPrefix(s[..n], s[n]);
      CanonicalUsable(s[..n]);
    }
  }

  function InsertAll(source: seq<Region>): (s: seq<Region>) {
    if source == [] then [] else Insert(InsertAll(source[..|source| - 1]), source[|source| - 1])
  }

  lemma {:induction false} InsertAllSorts(source: seq<Region>)
    ensures Sorting(source, InsertAll(source))
  {
    if source != [] {
      var n := |source| - 1;
      InsertAllSorts(source[..n]);
      assert source == source[..n] + [source[n]];
      InsertStep(source[..n], InsertAll(source[..n]), source[n]);
    }
  }

  lemma SortingValid(source: seq<Region>, s: seq<Region>)
    requires Sorting(source, s) && AllValid(source)
    ensures AllValid(s)
  {
    forall i | 0 <= i < |s| ensures IsValid(s[i]) {
      assert s[i] in source;
    }
  }

  lemma SortingCovers(source: seq<Region>, s: seq<Region>)
    requires Sorting(source, s)
    ensures SameMap(source, s)
  {
    forall a: int, c: Class ensures Covers(source, a, c) <==> Covers(s, a, c) {
      if Covers(source, a, c) {
        var i :| 0 <= i < |source| && source[i].base <= a < End(source[i]) && ClassOf(source[i]) == c;
        assert source[i] in s;
      }
      if Covers(s, a, c) {
        var i :| 0 <= i < |s| && s[i].base <= a < End(s[i]) && ClassOf(s[i]) == c;
        assert s[i] in source;
      }
    }
  }

  /** Disjoint valid regions never hold more usable bytes than a word can count. */
  lemma UsableFits(source: seq<Region>)
    requires AllValid(source) && !Overlapping(source)
    ensures Usable(source) <= U64_MAX
  {
    hide Overlapping, Usable;
    var s := InsertAll(source);
    InsertAllSorts(source);
    SortingValid(source, s);
    OrderedIsDisjoint(s);
    MergedIs(s);
    CanonicalUsable(Merged(s));
  }

  /** Sum of the usable lengths, saturating. */
  method UsableBytes(s: seq<Region>) returns (total: word)
    ensures total == if Usable(s) <= U64_MAX then Usable(s) else U64_MAX
    ensures AllValid(s) && !Overlapping(s) ==> total == Usable(s)
  {
    hide Overlapping;
    if AllValid(s) && !Overlapping(s) { UsableFits(s); }
    total := 0;
    for i := 0 to |s|
      invariant total == Usable(s[..i])
    {
      UsableGrows(s, i + 1);
      assert s[..i + 1][..i] == s[..i];
      if s[i].kind != USABLE {
        continue;
      }
      if total > U64_MAX - s[i].length {
        return U64_MAX;
      }
      total := total + s[i].length;
    }
    assert s[..|s|] == s;
  }

  lemma UsableGrows(s: seq<Region>, i: nat)
    requires i <= |s|
    ensures Usable(s[..i]) <= Usable(s)
  {
    assert s == s[..i] + s[i..];
    UsableConcat(s[..i], s[i..]);
  }

  // ---- The normalizer

  /** Normalized form `t` of a source: canonical, with the same map and the same usable bytes. */
  ghost predicate Normalizes(source: seq<Region>, t: seq<Region>) {
    Canonical(t) && SameMap(source, t) && Usable(t) == Usable(source)
  }

  /** Two sources with one address map, however ordered and split, normalize alike. */
  lemma NormalFormsAgree(source: seq<Region>, t: seq<Region>, source': seq<Region>, t': seq<Region>)
    requires Normalizes(source, t) && Normalizes(source', t')
    ensures t == t' <==> SameMap(source, source')
  {
    hide Covers, Canonical;
    if SameMap(source, source') {
      CanonicalUnique(t, t');
    }
  }

  /** Caller-owned storage that receives a normalized map. */
  class MutableMemoryMap {
    const regions: array<Region>
    var count: nat

    constructor (regions: array<Region>)
      ensures this.regions == regions && count == 0
    {
      this.regions := regions;
      count := 0;
    }

    ghost predicate Valid()
      reads this
    {
      count <= regions.Length
    }

    ghost function Contents(): (s: seq<Region>)
      reads this, regions
      requires Valid()
    {
      regions[..count]
    }

    /** Insert a region at its place in base order, shifting the later ones up. */
    method InsertSorted(r: Region) returns (status: Status)
      requires Valid()
      modifies this`count, regions
      ensures Valid()
      ensures status == if old(count) < regions.Length then OK else OUT_OF_CAPACITY
      ensures Contents() == if status == OK then Insert(old(Contents()), r) else old(Contents())
    {
      hide Position, Insert;
      if count >= regions.Length {
        return OUT_OF_CAPACITY;
      }
      ghost var s := regions[..count];
      var index := 0;
      while index < count && regions[index].base <= r.base
        invariant index <= count == |s| && count < regions.Length && regions[..count] == s
        invariant forall k :: 0 <= k < index ==> regions[k].base <= r.base
      {
        index := index + 1;
      }
      FirstLater(s, r, index);
      var cursor := count;
      while cursor > index
        invariant index <= cursor <= count == |s| && count < regions.Length
        invariant forall k :: 0 <= k < cursor ==> regions[k] == s[k]
        invariant forall k :: cursor <= k < |s| ==> regions[k + 1] == s[k]
      {
        regions[cursor] := regions[cursor - 1];
        cursor := cursor - 1;
      }
      regions[index] := r;
      count := count + 1;
      InsertedAt(s, r, regions[..count]);
      return OK;
    }

    /** Join neighbours of one class in place. */
    method MergeAdjacent() returns (status: Status)
      requires Valid() && AllValid(Contents())
      modifies this`count, regions
      ensures Valid()
      ensures status == if Ordered(old(Contents())) then OK else OVERLAP
      ensures status == OK ==> Contents() == Merged(old(Contents()))
    {
      hide Merged, Extend, Canonical, Covers, Usable, Ordered;
      ghost var s := regions[..count];
      var write := 0;
      status := OVERFLOW;
      MergedEmpty();
      for read := 0 to count
        invariant write <= read && count == |s| && status == OVERFLOW
        invariant regions[read..count] == s[read..] && AllValid(s[..read]) && Ordered(s[..read])
        invariant regions[..write] == Merged(s[..read])
      {
        var current := regions[read];
        assert current == s[read];
        ghost var merged := Merged(s[..read]);
        MergedLast(s, read);
        MergedNext(s, read);
        ExtendIsEither(merged, current);
        assert |merged| == write && (write > 0 ==> merged[write - 1] == regions[write - 1]);
        if !IsValid(current) {
          return;
        }
        if write > 0 && !IsValid(regions[write - 1]) {
          return;
        }
        OrderedNext(s, read);
        if write > 0 && current.base < End(regions[write - 1]) {
          return OVERLAP;
        }
        if write > 0 && current.base == End(regions[write - 1]) && ClassOf(regions[write - 1]) == ClassOf(current) {
          regions[write - 1] := regions[write - 1].(length := regions[write - 1].length + current.length);
          assert regions[..write] == merged[write - 1 := regions[write - 1]];
        } else {
          regions[write] := current;
          assert regions[..write + 1] == merged + [current];
          write := write + 1;
        }
      }
      count := write;
      assert s[..|s|] == s;
      return OK;
    }

    /** Sort and merge a source map into this storage. */
    method Normalize(source: seq<Region>) returns (status: Status)
      requires Valid()
      modifies this`count, regions
      ensures Valid()
      ensures status == BAD_ARGUMENT <==> exists i :: 0 <= i < |source| && i <= regions.Length && !IsValid(source[i])
      ensures status == OUT_OF_CAPACITY <==> regions.Length < |source| && AllValid(source[..regions.Length + 1])
      ensures |source| <= regions.Length && AllValid(source) ==> status == if Overlapping(source) then OVERLAP else OK
      ensures status == OK ==> Normalizes(source, Contents())
    {
      hide Overlapping, Canonical, Covers, Usable;
      count := 0;
      EmptySorting();
      for i := 0 to |source|
        invariant Valid() && count == i && AllValid(source[..i]) && Sorting(source[..i], Contents())
      {
        if !IsValid(source[i]) {
          return BAD_ARGUMENT;
        }
        assert source[..i + 1] == source[..i] + [source[i]];
        InsertStep(source[..i], Contents(), source[i]);
        status := InsertSorted(source[i]);
        if status != OK {
          return;
        }
      }
      assert source[..|source|] == source;
      ghost var s := Contents();
      SortingValid(source, s);
      SortingCovers(source, s);
      OrderedIsDisjoint(s);
      status := MergeAdjacent();
      if status == OK {
        MergedIs(s);
      }
    }
  }

  lemma FirstLater(s: seq<Region>, r: Region, index: nat)
    requires index <= |s| && (forall k :: 0 <= k < index ==> s[k].base <= r.base)
    requires index < |s| ==> s[index].base > r.base
    ensures Position(s, r) == index
  {
  }

  lemma InsertedAt(s: seq<Region>, r: Region, t: seq<Region>)
    requires |t| == |s| + 1 && t[Position(s, r)] == r
    requires forall k :: 0 <= k < Position(s, r) ==> t[k] == s[k]
    requires forall k :: Position(s, r) <= k < |s| ==> t[k + 1] == s[k]
    ensures t == Insert(s, r)
  {
    hide Position;
    var p := Position(s, r);
    forall k | 0 <= k < |t| ensures t[k] == Insert(s, r)[k] {
      if k > p { assert t[k - 1 + 1] == s[k - 1]; }
    }
  }

  /** The merged prefix is valid and ends where the last merged region ended. */
  lemma MergedLast(s: seq<Region>, i: nat)
    requires i <= |s| && AllValid(s[..i]) && Ordered(s[..i])
    ensures var t := Merged(s[..i]);
      && |t| <= i && (i > 0 ==> |t| > 0)
         && (|t| > 0 ==> IsValid(t[|t| - 1]) && i > 0 && End(t[|t| - 1]) == End(s[i - 1]))
  {
    hide Merged, Covers, Usable, Ordered;
    MergedIs(s[..i]);
    if i > 0 { assert s[..i][i - 1] == s[i - 1]; }
  }

  lemma ExtendIsEither(s: seq<Region>, r: Region)
    requires IsValid(r)
    ensures if |s| > 0 && End(s[|s| - 1]) == r.base && ClassOf(s[|s| - 1]) == ClassOf(r)
            then s[|s| - 1].length + r.length <= U64_MAX
              && Extend(s, r) == s[|s| - 1 := s[|s| - 1].(length := s[|s| - 1].length + r.length)]
            else Extend(s, r) == s + [r]
  {
  }

  lemma MergedEmpty()
    ensures Merged([]) == [] && Ordered([])
  {
  }

  lemma MergedNext(s: seq<Region>, i: nat)
    requires i < |s| && AllValid(s)
    ensures AllValid(s[..i]) && AllValid(s[..i + 1])
    ensures Merged(s[..i + 1]) == Extend(Merged(s[..i]), s[i])
  {
    assert s[..i + 1][..i] == s[..i];
  }

  /** Whether the next region may follow depends on the end of the one before it alone. */
  lemma OrderedNext(s: seq<Region>, i: nat)
    requires i < |s| && Ordered(s[..i])
    ensures Ordered(s[..i + 1]) <==> (i > 0 ==> End(s[i - 1]) <= s[i].base)
    ensures i > 0 && End(s[i - 1]) > s[i].base ==> !Ordered(s)
  {
    if i > 0 {
      var t := s[..i + 1];
      if End(s[i - 1]) <= s[i].base {
        forall k | 0 <= k < |t| - 1 ensures StepAt(t, k) {
          if k + 1 < i { assert StepAt(s[..i], k); }
        }
      } else {
        assert !StepAt(t, i - 1) && !StepAt(s, i - 1);
      }
    }
  }

  lemma EmptySorting()
    ensures Sorting([], [])
  {
  }
}
