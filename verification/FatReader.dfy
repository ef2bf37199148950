/**
 The boot-time FAT32 reader: a block device that may fail, the mounted geometry, the
 volume the device presents, and the bounded walks over it.
 */
module FatReader {
  import opened Bytes
  import opened FatVolume
  import opened FatNames

  datatype Status =
    OK | BAD_ARGUMENT | BAD_BPB | OUT_OF_RANGE | IO | BAD_PATH | NOT_FOUND | NOT_REGULAR | CHAIN_CYCLE | CORRUPT_CHAIN

  // ---- Walking the table

  datatype Link = End | To(next: nat) | Broken

  /** What the reader makes of one table entry. */
  function LinkOf(fat: seq<nat>, c: nat): (l: Link)
    requires c < |fat|
    ensures l.To? ==> InRange(fat, l.next)
  {
    var n := Entry(fat, c);
    if n >= EOC_MIN then End
    else if n < 2 || n >= |fat| || n == BAD_CLUSTER then Broken
    else To(n)
  }

  /** The first `k` clusters of the walk from `c`, if the links reach that far. */
  function Walk(fat: seq<nat>, c: nat, k: nat): (r: Option<seq<nat>>)
    requires InRange(fat, c)
    ensures r.Some? ==> |r.value| == k && forall i :: 0 <= i < k ==> InRange(fat, r.value[i])
    decreases k
  {
    if k == 0 then Some([])
    else if k == 1 then Some([c])
    else match LinkOf(fat, c)
      case To(n) => (match Walk(fat, n, k - 1) case Some(s) => Some([c] + s) case None => None)
      case _ => None
  }

  /** Pigeonhole: a walk longer than the number of clusters visits one of them twice. */
  lemma LongWalkRevisits(fat: seq<nat>, c: nat, k: nat)
    requires InRange(fat, c) && Walk(fat, c, k).Some? && k > |fat| - 2
    ensures exists i, j :: 0 <= i < j < k && Walk(fat, c, k).value[i] == Walk(fat, c, k).value[j]
  {
    var s := Walk(fat, c, k).value;
    if Distinct(s) {
      Pigeonhole(s, 2, |fat|);
    }
  }

  lemma {:induction false} WalkPrefix(fat: seq<nat>, c: nat, k: nat, n: nat)
    requires InRange(fat, c) && Walk(fat, c, k).Some? && n <= k
    ensures Walk(fat, c, n) == Some(Walk(fat, c, k).value[..n])
    decreases k
  {
    if n >= 2 {
      WalkPrefix(fat, LinkOf(fat, c).next, k - 1, n - 1);
      assert Walk(fat, c, k).value[..n] == [c] + Walk(fat, LinkOf(fat, c).next, k - 1).value[..n - 1];
    } else {
      assert n == 1 ==> Walk(fat, c, k).value[..1] == [c];
    }
  }

  /** Continuing a walk from its last cluster. */
  lemma {:induction false} WalkJoin(fat: seq<nat>, c: nat, k: nat, n: nat)
    requires InRange(fat, c) && k >= 1 && n >= 1
    ensures Walk(fat, c, k - 1 + n).Some? <==> Walk(fat, c, k).Some? && Walk(fat, Walk(fat, c, k).value[k - 1], n).Some?
    ensures Walk(fat, c, k - 1 + n).Some? ==>
      Walk(fat, c, k - 1 + n).value == Walk(fat, c, k).value[..k - 1] + Walk(fat, Walk(fat, c, k).value[k - 1], n).value
    decreases k
  {
    if k == 1 {
      assert Walk(fat, c, 1).value[..0] == [];
    } else if LinkOf(fat, c).To? {
      WalkJoin(fat, LinkOf(fat, c).next, k - 1, n);
    }
  }

  lemma {:induction false} WalkOfChain(fat: seq<nat>, s: seq<nat>, k: nat)
    requires |fat| <= BAD_CLUSTER && IsChain(fat, s) && k <= |s|
    ensures Walk(fat, s[0], k) == Some(s[..k])
    decreases |s|
  {
    if k >= 2 {
      ChainTail(fat, s);
      WalkOfChain(fat, s[1..], k - 1);
      assert s[..k] == [s[0]] + s[1..][..k - 1];
    } else if k == 1 {
      assert s[..1] == [s[0]];
    }
  }

  lemma ChainTail(fat: seq<nat>, s: seq<nat>)
    requires |fat| <= BAD_CLUSTER && IsChain(fat, s)
    ensures InRange(fat, s[0])
    ensures s != [] && (|s| == 1 ==> LinkOf(fat, s[0]) == End)
    ensures |s| > 1 ==> IsChain(fat, s[1..]) && LinkOf(fat, s[0]) == To(s[1])
  {
    if |s| > 1 {
      assert LinkAt(fat, s, 0) && InRange(fat, s[1]);
      var t := s[1..];
      forall i | 0 <= i < |t| - 1 ensures LinkAt(fat, t, i) {
        assert LinkAt(fat, s, i + 1);
      }
    }
  }

  // ---- Scanning a directory

  datatype SlotScan = Hit(entry: slot) | EndMark | Miss

  function ScanSlots(es: seq<slot>, name: seq<byte>): (r: SlotScan)
    ensures r.Hit? ==> Visible(r.entry) && Name(r.entry) == name
  {
    if es == [] then Miss
    else if es[0][0] == 0 then EndMark
    else if Visible(es[0]) && Name(es[0]) == name then Hit(es[0])
    else ScanSlots(es[1..], name)
  }

  datatype Scanned = Found(entry: slot) | Failed(status: Status)

  /** A directory scan that gives up after `fuel` clusters. */
  function Scan(v: Volume, c: nat, name: seq<byte>, fuel: nat): (r: Scanned)
    requires |v.data| == |v.fat| && InRange(v.fat, c)
    ensures r.Found? ==> Visible(r.entry) && Name(r.entry) == name
    ensures r.Failed? ==> r.status in {NOT_FOUND, CHAIN_CYCLE, CORRUPT_CHAIN}
    decreases fuel
  {
    if fuel == 0 then Failed(CHAIN_CYCLE)
    else match ScanSlots(ClusterSlots(v.data[c]), name)
      case Hit(e) => Found(e)
      case EndMark => Failed(NOT_FOUND)
      case Miss =>
        match LinkOf(v.fat, c)
        case Broken => Failed(CORRUPT_CHAIN)
        case End => Failed(NOT_FOUND)
        case To(n) => Scan(v, n, name, fuel - 1)
  }

  lemma {:induction false} FindByScan(a: seq<slot>, b: seq<slot>, name: seq<byte>)
    ensures Find(a + b, name) ==
      match ScanSlots(a, name) case Hit(e) => Some(e) case EndMark => None case Miss => Find(b, name)
  {
    if a == [] {
      assert a + b == b;
    } else {
      FindByScan(a[1..], b, name);
      assert (a + b)[1..] == a[1..] + b;
    }
  }

  /** On a proper chain the scan is a search of the whole directory and the bound never shows. */
  lemma {:induction false} ScanOfChain(v: Volume, s: seq<nat>, name: seq<byte>, fuel: nat)
    requires |v.fat| == |v.data| <= BAD_CLUSTER && s != [] && IsChain(v.fat, s) && Within(v.data, s) && fuel >= |s|
    ensures Scan(v, s[0], name, fuel) ==
      match Find(Slots(v.data, s), name) case Some(e) => Found(e) case None => Failed(NOT_FOUND)
    decreases |s|
  {
    hide IsChain, ClusterSlots, LinkOf, Find, ScanSlots, Visible;
    ChainTail(v.fat, s);
    assert Within(v.data, s[1..]);
    FindByScan(ClusterSlots(v.data[s[0]]), Slots(v.data, s[1..]), name);
    if |s| > 1 {
      ScanOfChain(v, s[1..], name, fuel - 1);
    }
  }

  /** What a scan finds is a slot of the name that is neither vacant, nor part of a long name, nor a volume label. */
  lemma FoundIsPlain(v: Volume, c: nat, name: seq<byte>, fuel: nat)
    requires |v.data| == |v.fat| && InRange(v.fat, c)
    ensures var r := Scan(v, c, name, fuel);
      r.Found? ==> r.entry[..11] == name && r.entry[0] != 0 && r.entry[0] != 0xE5 && r.entry[11] != 0x0F
                   && r.entry[11] / 8 % 2 == 0
  {
    hide Scan;
  }

  /** The cycle status means the walk has more clusters than the bound. */
  lemma {:induction false} CycleMeansLongWalk(v: Volume, c: nat, name: seq<byte>, fuel: nat)
    requires |v.data| == |v.fat| && InRange(v.fat, c)
    requires Scan(v, c, name, fuel) == Failed(CHAIN_CYCLE)
    ensures Walk(v.fat, c, fuel + 1).Some? && AllMiss(v, Walk(v.fat, c, fuel + 1).value[..fuel], name)
    decreases fuel
  {
    if fuel > 0 {
      var n := LinkOf(v.fat, c).next;
      CycleMeansLongWalk(v, n, name, fuel - 1);
      var u := Walk(v.fat, n, fuel).value;
      assert Walk(v.fat, c, fuel + 1).value[..fuel] == [c] + u[..fuel - 1];
    }
  }

  /** A scan reports a cycle only if its walk revisits a cluster. */
  lemma CycleIsReal(v: Volume, c: nat, name: seq<byte>)
    requires |v.data| == |v.fat| && InRange(v.fat, c)
    requires Scan(v, c, name, |v.fat| - 2) == Failed(CHAIN_CYCLE)
    ensures exists k :: RevisitsBy(v.fat, c, k)
  {
    CycleMeansLongWalk(v, c, name, |v.fat| - 2);
    LongWalkRevisits(v.fat, c, |v.fat| - 1);
    assert RevisitsBy(v.fat, c, |v.fat| - 1);
  }

  /** The first `k` clusters of the walk contain a repetition. */
  ghost predicate RevisitsBy(fat: seq<nat>, c: nat, k: nat) {
    InRange(fat, c) && Walk(fat, c, k).Some? && !Distinct(Walk(fat, c, k).value)
  }

  /** None of the clusters holds the name or an end mark. */
  ghost predicate AllMiss(v: Volume, s: seq<nat>, name: seq<byte>) {
    forall i :: 0 <= i < |s| ==> s[i] < |v.data| && ScanSlots(ClusterSlots(v.data[s[i]]), name).Miss?
  }

  lemma AllMissTail(v: Volume, a: seq<nat>, b: seq<nat>, name: seq<byte>)
    requires AllMiss(v, a + b, name)
    ensures AllMiss(v, b, name)
  {
    forall i | 0 <= i < |b| ensures b[i] < |v.data| && ScanSlots(ClusterSlots(v.data[b[i]]), name).Miss? {
      assert b[i] == (a + b)[|a| + i];
    }
  }

  /** Behind two positions with one cluster a walk goes the same way. */
  lemma SameWay(fat: seq<nat>, c: nat, i: nat, j: nat, n: nat)
    requires InRange(fat, c) && n >= 1 && Walk(fat, c, i + 1).Some? && Walk(fat, c, j + 1).Some?
    requires Walk(fat, c, i + 1).value[i] == Walk(fat, c, j + 1).value[j]
    ensures Walk(fat, c, i + n).Some? <==> Walk(fat, c, j + n).Some?
    ensures Walk(fat, c, i + n).Some? ==> Walk(fat, c, i + n).value[i + n - 1] == Walk(fat, c, j + n).value[j + n - 1]
  {
    hide Walk;
    WalkJoin(fat, c, i + 1, n);
    WalkJoin(fat, c, j + 1, n);
  }

  /** Two positions of a walk with one cluster. */
  lemma Repetition(fat: seq<nat>, c: nat, k: nat) returns (i: nat, j: nat)
    requires RevisitsBy(fat, c, k)
    ensures i < j < k && Walk(fat, c, i + 1).Some? && Walk(fat, c, j + 1).Some?
    ensures Walk(fat, c, i + 1).value[i] == Walk(fat, c, j + 1).value[j]
  {
    hide Walk;
    var w := Walk(fat, c, k).value;
    i, j :| 0 <= i < j < k && w[i] == w[j];
    WalkPrefix(fat, c, k, i + 1);
    WalkPrefix(fat, c, k, j + 1);
  }

  /** A walk that revisits a cluster never ends. */
  lemma {:induction false} LoopGoesOn(fat: seq<nat>, c: nat, k: nat, m: nat)
    requires RevisitsBy(fat, c, k)
    ensures Walk(fat, c, m).Some?
    decreases m
  {
    hide Walk;
    if m <= k {
      WalkPrefix(fat, c, k, m);
    } else {
      var i, j := Repetition(fat, c, k);
      LoopGoesOn(fat, c, k, m - (j - i));
      SameWay(fat, c, i, j, m - j);
    }
  }

  /** What a walk visits behind a revisited cluster it has visited before. */
  lemma {:induction false} LoopRepeats(fat: seq<nat>, c: nat, k: nat, p: nat)
    requires RevisitsBy(fat, c, k)
    ensures Walk(fat, c, p + 1).Some? && Walk(fat, c, p + 1).value[p] in Walk(fat, c, k).value[..k - 1]
    decreases p
  {
    hide Walk;
    LoopGoesOn(fat, c, k, p + 1);
    if p < k - 1 {
      WalkPrefix(fat, c, k, p + 1);
      assert Walk(fat, c, k).value[..k - 1][p] == Walk(fat, c, p + 1).value[p];
    } else {
      var i, j := Repetition(fat, c, k);
      LoopRepeats(fat, c, k, p - (j - i));
      SameWay(fat, c, i, j, p - j + 1);
    }
  }

  /** The walk from `c` runs into a loop. */
  ghost predicate Loops(fat: seq<nat>, c: nat) {
    exists k: nat :: RevisitsBy(fat, c, k)
  }

  /** No cluster that the walk from `c` ever visits holds the name or an end mark. */
  ghost predicate NeverMet(v: Volume, c: nat, name: seq<byte>)
    requires InRange(v.fat, c)
  {
    forall k: nat :: Walk(v.fat, c, k).Some? ==> AllMiss(v, Walk(v.fat, c, k).value, name)
  }

  lemma LoopMeetsNothing(v: Volume, c: nat, name: seq<byte>)
    requires |v.data| == |v.fat| && InRange(v.fat, c) && RevisitsBy(v.fat, c, |v.fat| - 1)
    requires AllMiss(v, Walk(v.fat, c, |v.fat| - 1).value[..|v.fat| - 2], name)
    ensures NeverMet(v, c, name)
  {
    hide Walk, ClusterSlots, ScanSlots;
    var w := Walk(v.fat, c, |v.fat| - 1).value[..|v.fat| - 2];
    forall k: nat | Walk(v.fat, c, k).Some? ensures AllMiss(v, Walk(v.fat, c, k).value, name) {
      var u := Walk(v.fat, c, k).value;
      forall p | 0 <= p < |u| ensures u[p] < |v.data| && ScanSlots(ClusterSlots(v.data[u[p]]), name).Miss? {
        LoopRepeats(v.fat, c, |v.fat| - 1, p);
        WalkPrefix(v.fat, c, k, p + 1);
        var q :| 0 <= q < |w| && w[q] == u[p];
      }
    }
  }

  /** The cycle report is exact: the directory loops, and nothing on its way answers the search. */
  lemma CycleExact(v: Volume, c: nat, name: seq<byte>)
    requires |v.data| == |v.fat| && InRange(v.fat, c)
    ensures Scan(v, c, name, |v.fat| - 2) == Failed(CHAIN_CYCLE) <==> Loops(v.fat, c) && NeverMet(v, c, name)
  {
    hide Walk, Scan, ScanSlots, ClusterSlots;
    var n := |v.fat| - 2;
    if Scan(v, c, name, n) == Failed(CHAIN_CYCLE) {
      CycleMeansLongWalk(v, c, name, n);
      LongWalkRevisits(v.fat, c, n + 1);
      assert RevisitsBy(v.fat, c, n + 1);
      LoopMeetsNothing(v, c, name);
    }
    if Loops(v.fat, c) && NeverMet(v, c, name) {
      var k: nat :| RevisitsBy(v.fat, c, k);
      LoopGoesOn(v.fat, c, k, n + 1);
      var w := Walk(v.fat, c, n + 1).value;
      assert w == w[..n] + w[n..];
      LoopIsReported(v, c, name, n);
    }
  }

  /** A directory whose walk goes on and that holds neither the name nor an end mark is reported as a cycle. */
  lemma {:induction false} LoopIsReported(v: Volume, c: nat, name: seq<byte>, fuel: nat)
    requires |v.data| == |v.fat| && InRange(v.fat, c)
    requires Walk(v.fat, c, fuel + 1).Some? && AllMiss(v, Walk(v.fat, c, fuel + 1).value[..fuel], name)
    ensures Scan(v, c, name, fuel) == Failed(CHAIN_CYCLE)
    decreases fuel
  {
    if fuel > 0 {
      var w := Walk(v.fat, c, fuel + 1).value;
      var n := LinkOf(v.fat, c).next;
      var u := Walk(v.fat, n, fuel).value;
      assert w == [c] + u && w[..fuel][0] == c;
      assert AllMiss(v, u[..fuel - 1], name) by {
        assert w[..fuel] == [c] + u[..fuel - 1];
        AllMissTail(v, [c], u[..fuel - 1], name);
      }
      LoopIsReported(v, n, name, fuel - 1);
    }
  }

  // ---- Reading a file

  /** Whole clusters before an offset. */
  function Whole(offset: nat, size: nat): (q: nat)
    requires size > 0
  {
    if offset < size then 0 else 1 + Whole(offset - size, size)
  }

  /** Bytes into the cluster an offset lies in. */
  function Rest(offset: nat, size: nat): (r: nat)
    requires size > 0
    ensures r < size
  {
    if offset < size then offset else Rest(offset - size, size)
  }

  lemma {:induction false} WholeAndRest(offset: nat, size: nat)
    requires size > 0
    ensures offset == Whole(offset, size) * size + Rest(offset, size)
  {
    if offset >= size {
      WholeAndRest(offset - size, size);
      assert Whole(offset, size) * size == Whole(offset - size, size) * size + size;
    }
  }

  /** Quotient and remainder are unique, so the two functions are division. */
  lemma WholeIsDivision(offset: nat, size: nat)
    requires size > 0
    ensures Whole(offset, size) == offset / size && Rest(offset, size) == offset % size
  {
    WholeAndRest(offset, size);
    var q, r := offset / size, offset % size;
    assert offset == q * size + r;
    if Whole(offset, size) < q {
      MulLe(Whole(offset, size) + 1, q, size);
    } else if Whole(offset, size) > q {
      MulLe(q + 1, Whole(offset, size), size);
    }
  }

  datatype ReadOutcome = Data(bytes: seq<byte>) | Fault(status: Status)

  /** Clusters needed for `n` bytes that start `r` bytes into the first one. */
  function Need(size: nat, r: nat, n: nat): (k: nat)
    requires r < size && n > 0
    ensures k >= 1
    decreases n
  {
    if n <= size - r then 1 else 1 + Need(size, 0, n - (size - r))
  }

  /** Read `n` bytes from `r` bytes into cluster `c`, giving up after `fuel` clusters. */
  function ReadFrom(v: Volume, c: nat, r: nat, n: nat, fuel: nat): (o: ReadOutcome)
    requires v.Valid() && InRange(v.fat, c) && r < v.clusterSize && n > 0
    decreases fuel
  {
    var available := v.clusterSize - r;
    if fuel == 0 then Fault(CHAIN_CYCLE)
    else if n <= available then Data(v.data[c][r..r + n])
    else match LinkOf(v.fat, c)
      case To(next) =>
        (match ReadFrom(v, next, 0, n - available, fuel - 1)
         case Data(bytes) => Data(v.data[c][r..] + bytes)
         case Fault(status) => Fault(status))
      case _ => Fault(CORRUPT_CHAIN)
  }

  /** The outcome of a read when no block fails: skip whole clusters, then read at most one per table entry. */
  function ReadSpec(v: Volume, first: nat, size: nat, offset: nat, n: nat): (o: ReadOutcome)
    requires v.Valid()
  {
    if offset > size || n > size - offset then Fault(BAD_ARGUMENT)
    else if n == 0 then Data([])
    else if !InRange(v.fat, first) then Fault(CORRUPT_CHAIN)
    else
      var skip := Whole(offset, v.clusterSize);
      match Walk(v.fat, first, skip + 1)
      case None => Fault(CORRUPT_CHAIN)
      case Some(w) => ReadFrom(v, w[skip], Rest(offset, v.clusterSize), n, |v.fat| - 2)
  }

  lemma WalkWithin(v: Volume, c: nat, k: nat)
    requires v.Valid() && InRange(v.fat, c) && Walk(v.fat, c, k).Some?
    ensures Within(v.data, Walk(v.fat, c, k).value)
    ensures |Content(v.data, Walk(v.fat, c, k).value)| == k * v.clusterSize
  {
    var s := Walk(v.fat, c, k).value;
    assert forall i :: 0 <= i < |s| ==> InRange(v.fat, s[i]);
    ContentLength(v.data, s, v.clusterSize);
  }

  /** Exactly when a bounded read succeeds, which bytes it yields, and how it fails. */
  lemma {:induction false} ReadFromExact(v: Volume, c: nat, r: nat, n: nat, fuel: nat)
    requires v.Valid() && InRange(v.fat, c) && r < v.clusterSize && n > 0
    ensures var k := Need(v.clusterSize, r, n);
      && (k <= fuel && Walk(v.fat, c, k).Some? ==>
            && Within(v.data, Walk(v.fat, c, k).value)
            && r + n <= |Content(v.data, Walk(v.fat, c, k).value)|
            && ReadFrom(v, c, r, n, fuel) == Data(Content(v.data, Walk(v.fat, c, k).value)[r..r + n]))
      && (k <= fuel && Walk(v.fat, c, k).None? ==> ReadFrom(v, c, r, n, fuel) == Fault(CORRUPT_CHAIN))
      && (k > fuel ==>
         ReadFrom(v, c, r, n, fuel) == Fault(if Walk(v.fat, c, fuel + 1).Some? then CHAIN_CYCLE else CORRUPT_CHAIN))
    decreases fuel
  {
    var available := v.clusterSize - r;
    if fuel > 0 {
      if n <= available {
        assert Content(v.data, [c]) == v.data[c] by { assert [c][1..] == []; }
        assert Walk(v.fat, c, 1) == Some([c]);
      } else if LinkOf(v.fat, c).To? {
        var next := LinkOf(v.fat, c).next;
        ReadFromExact(v, next, 0, n - available, fuel - 1);
        ReadFromStep(v, c, r, n, fuel, next);
      }
    }
  }

  lemma ReadFromStep(v: Volume, c: nat, r: nat, n: nat, fuel: nat, next: nat)
    requires v.Valid() && InRange(v.fat, c) && r < v.clusterSize && n > v.clusterSize - r
    requires fuel > 0 && LinkOf(v.fat, c) == To(next)
    requires var k, rest := Need(v.clusterSize, r, n) - 1, n - (v.clusterSize - r);
      k <= fuel - 1 && Walk(v.fat, next, k).Some? ==>
        && Within(v.data, Walk(v.fat, next, k).value)
        && rest <= |Content(v.data, Walk(v.fat, next, k).value)|
        && ReadFrom(v, next, 0, rest, fuel - 1) == Data(Content(v.data, Walk(v.fat, next, k).value)[0..rest])
    ensures var k := Need(v.clusterSize, r, n);
      k <= fuel && Walk(v.fat, c, k).Some? ==>
        && Within(v.data, Walk(v.fat, c, k).value)
        && r + n <= |Content(v.data, Walk(v.fat, c, k).value)|
        && ReadFrom(v, c, r, n, fuel) == Data(Content(v.data, Walk(v.fat, c, k).value)[r..r + n])
  {
    var k := Need(v.clusterSize, r, n);
    if k <= fuel && Walk(v.fat, c, k).Some? {
      var u := Walk(v.fat, next, k - 1).value;
      var w := Walk(v.fat, c, k).value;
      assert w == [c] + u && w[1..] == u && w[0] == c;
      WalkWithin(v, c, k);
      var rest := n - (v.clusterSize - r);
      assert Content(v.data, w) == v.data[c] + Content(v.data, u);
      assert Content(v.data, w)[r..r + n] == v.data[c][r..] + Content(v.data, u)[0..rest];
    }
  }

  /** Clusters from the start of the file to the last byte of a read. */
  function Reach(size: nat, offset: nat, n: nat): (k: nat)
    requires size > 0 && n > 0
  {
    Whole(offset, size) + Need(size, Rest(offset, size), n)
  }

  lemma {:induction false} NeedBounds(size: nat, r: nat, n: nat)
    requires r < size && n > 0
    ensures (Need(size, r, n) - 1) * size < r + n <= Need(size, r, n) * size
    decreases n
  {
    if n > size - r {
      NeedBounds(size, 0, n - (size - r));
    }
  }

  lemma ReachBounds(size: nat, offset: nat, n: nat)
    requires size > 0 && n > 0
    ensures Reach(size, offset, n) >= 1
    ensures (Reach(size, offset, n) - 1) * size < offset + n <= Reach(size, offset, n) * size
  {
    NeedBounds(size, Rest(offset, size), n);
    WholeAndRest(offset, size);
    var q, k := Whole(offset, size), Need(size, Rest(offset, size), n);
    assert (q + k) * size == q * size + k * size;
    assert (q + k - 1) * size == q * size + (k - 1) * size;
  }

  lemma ReachMonotone(size: nat, o: nat, n: nat, o': nat, n': nat)
    requires size > 0 && n > 0 && n' > 0 && o + n <= o' + n'
    ensures Reach(size, o, n) <= Reach(size, o', n')
  {
    ReachBounds(size, o, n);
    ReachBounds(size, o', n');
    if Reach(size, o, n) > Reach(size, o', n') {
      MulLe(Reach(size, o', n'), Reach(size, o, n) - 1, size);
    }
  }

  /** How a well-formed request is answered, in terms of the walk from the first cluster alone. */
  lemma ReadExact(v: Volume, first: nat, size: nat, offset: nat, n: nat)
    requires v.Valid() && InRange(v.fat, first) && n > 0 && offset + n <= size
    ensures var skip, k := Whole(offset, v.clusterSize), Reach(v.clusterSize, offset, n);
      && (ReadSpec(v, first, size, offset, n).Data? <==> k - skip <= |v.fat| - 2 && Walk(v.fat, first, k).Some?)
      && (ReadSpec(v, first, size, offset, n).Data? ==>
            && Within(v.data, Walk(v.fat, first, k).value)
            && offset + n <= |Content(v.data, Walk(v.fat, first, k).value)|
            && ReadSpec(v, first, size, offset, n) ==
               Data(Content(v.data, Walk(v.fat, first, k).value)[offset..offset + n]))
      && (ReadSpec(v, first, size, offset, n) == Fault(CHAIN_CYCLE) <==>
            k - skip > |v.fat| - 2 && Walk(v.fat, first, skip + |v.fat| - 1).Some?)
      && (ReadSpec(v, first, size, offset, n) in {Fault(CHAIN_CYCLE), Fault(CORRUPT_CHAIN)}
         || ReadSpec(v, first, size, offset, n).Data?)
  {
    hide Whole, Rest, Walk, Content, ReadFrom, Need;
    var skip, r, fuel := Whole(offset, v.clusterSize), Rest(offset, v.clusterSize), |v.fat| - 2;
    var need := Need(v.clusterSize, r, n);
    WalkJoin(v.fat, first, skip + 1, need);
    WalkJoin(v.fat, first, skip + 1, fuel + 1);
    if Walk(v.fat, first, skip + 1).Some? {
      var w := Walk(v.fat, first, skip + 1).value;
      ReadFromExact(v, w[skip], r, n, fuel);
      if need <= fuel && Walk(v.fat, w[skip], need).Some? {
        SkippedContent(v, first, skip, need, offset, n);
      }
    }
  }

  lemma SkippedContent(v: Volume, first: nat, skip: nat, k: nat, offset: nat, n: nat)
    requires v.Valid() && InRange(v.fat, first) && k >= 1 && skip == Whole(offset, v.clusterSize)
    requires Walk(v.fat, first, skip + 1).Some?
    requires var c := Walk(v.fat, first, skip + 1).value[skip];
      && Walk(v.fat, c, k).Some? && Within(v.data, Walk(v.fat, c, k).value)
      && Rest(offset, v.clusterSize) + n <= |Content(v.data, Walk(v.fat, c, k).value)|
    ensures Walk(v.fat, first, skip + k).Some? && Within(v.data, Walk(v.fat, first, skip + k).value)
    ensures offset + n <= |Content(v.data, Walk(v.fat, first, skip + k).value)|
    ensures var c, r := Walk(v.fat, first, skip + 1).value[skip], Rest(offset, v.clusterSize);
      Content(v.data, Walk(v.fat, first, skip + k).value)[offset..offset + n] ==
      Content(v.data, Walk(v.fat, c, k).value)[r..r + n]
  {
    hide Whole, Rest, Walk, Content;
    var w := Walk(v.fat, first, skip + 1).value;
    var s := Walk(v.fat, w[skip], k).value;
    WalkJoin(v.fat, first, skip + 1, k);
    WalkPrefix(v.fat, first, skip + 1, skip);
    WalkWithin(v, first, skip);
    ContentAppend(v.data, w[..skip], s);
    WholeAndRest(offset, v.clusterSize);
    SliceAfter(Content(v.data, w[..skip]), Content(v.data, s), Rest(offset, v.clusterSize), n);
  }

  /** A read that reports a cycle walked over some cluster twice. */
  lemma ReadCycleIsReal(v: Volume, first: nat, size: nat, offset: nat, n: nat)
    requires v.Valid() && ReadSpec(v, first, size, offset, n) == Fault(CHAIN_CYCLE)
    ensures exists k :: RevisitsBy(v.fat, first, k)
  {
    ReadExact(v, first, size, offset, n);
    var k := Whole(offset, v.clusterSize) + |v.fat| - 1;
    LongWalkRevisits(v.fat, first, k);
    assert RevisitsBy(v.fat, first, k);
  }

  /** A read reports a cycle exactly when the file loops and the request spans more clusters than there are. */
  lemma ReadCycleExact(v: Volume, first: nat, size: nat, offset: nat, n: nat)
    requires v.Valid() && InRange(v.fat, first) && n > 0 && offset + n <= size
    ensures ReadSpec(v, first, size, offset, n) == Fault(CHAIN_CYCLE) <==>
      Loops(v.fat, first) && Reach(v.clusterSize, offset, n) - Whole(offset, v.clusterSize) > |v.fat| - 2
  {
    hide ReadSpec, Walk, Reach, Whole;
    ReadExact(v, first, size, offset, n);
    var k := Whole(offset, v.clusterSize) + |v.fat| - 1;
    if Walk(v.fat, first, k).Some? {
      LongWalkRevisits(v.fat, first, k);
      assert RevisitsBy(v.fat, first, k);
    }
    if Loops(v.fat, first) {
      var j: nat :| RevisitsBy(v.fat, first, j);
      LoopGoesOn(v.fat, first, j, k);
    }
  }

  lemma ContentPrefix(data: seq<seq<byte>>, s: seq<nat>, k: nat)
    requires Within(data, s) && k <= |s|
    ensures Within(data, s[..k]) && Content(data, s[..k]) <= Content(data, s)
  {
    assert s == s[..k] + s[k..];
    ContentAppend(data, s[..k], s[k..]);
  }

  /** On a chain long enough for the file every request inside it succeeds with exactly its bytes. */
  lemma ReadOfChain(v: Volume, s: seq<nat>, size: nat, offset: nat, n: nat)
    requires v.Valid() && IsChain(v.fat, s) && size <= |s| * v.clusterSize && offset + n <= size
    ensures Within(v.data, s) && |Content(v.data, s)| == |s| * v.clusterSize
    ensures ReadSpec(v, s[0], size, offset, n) == Data(Content(v.data, s)[offset..offset + n])
  {
    assert forall i :: 0 <= i < |s| ==> InRange(v.fat, s[i]);
    ContentLength(v.data, s, v.clusterSize);
    if n > 0 {
      var k := Reach(v.clusterSize, offset, n);
      ReachBounds(v.clusterSize, offset, n);
      if k > |s| {
        MulLe(|s|, k - 1, v.clusterSize);
      }
      ChainFits(v.fat, s);
      WalkOfChain(v.fat, s, k);
      ReadExact(v, s[0], size, offset, n);
      ContentPrefix(v.data, s, k);
      assert Content(v.data, s[..k])[offset..offset + n] == Content(v.data, s)[offset..offset + n];
    }
  }

  /** A successful read is the concatenation of the two reads it splits into. */
  lemma SplitRead(v: Volume, first: nat, size: nat, offset: nat, a: nat, b: nat)
    requires v.Valid() && ReadSpec(v, first, size, offset, a + b).Data?
    ensures var all := ReadSpec(v, first, size, offset, a + b).bytes;
      && |all| == a + b
      && ReadSpec(v, first, size, offset, a) == Data(all[..a])
      && ReadSpec(v, first, size, offset + a, b) == Data(all[a..])
  {
    hide ReadSpec;
    if a + b > 0 {
      var all := ReadSpec(v, first, size, offset, a + b).bytes;
      PartOfRead(v, first, size, offset, a + b, 0, a);
      PartOfRead(v, first, size, offset, a + b, a, b);
      assert all[0..a] == all[..a] && all[a..a + b] == all[a..];
    } else {
      EmptyRead(v, first, size, offset);
    }
  }

  lemma EmptyRead(v: Volume, first: nat, size: nat, offset: nat)
    requires v.Valid() && ReadSpec(v, first, size, offset, 0).Data?
    ensures ReadSpec(v, first, size, offset, 0) == Data([])
  {
    hide Whole, Walk, ReadFrom;
  }

  lemma PartOfRead(v: Volume, first: nat, size: nat, offset: nat, n: nat, d: nat, m: nat)
    requires v.Valid() && n > 0 && ReadSpec(v, first, size, offset, n).Data? && d + m <= n
    ensures |ReadSpec(v, first, size, offset, n).bytes| == n
    ensures ReadSpec(v, first, size, offset + d, m) == Data(ReadSpec(v, first, size, offset, n).bytes[d..d + m])
  {
    hide Whole, Need, Walk, Content, ReadFrom;
    ReadExact(v, first, size, offset, n);
    if m > 0 {
      ReadExact(v, first, size, offset + d, m);
      var k, j := Reach(v.clusterSize, offset, n), Reach(v.clusterSize, offset + d, m);
      ReachMonotone(v.clusterSize, offset + d, m, offset, n);
      WholeMonotone(offset, offset + d, v.clusterSize);
      WalkPrefix(v.fat, first, k, j);
      var w := Walk(v.fat, first, k).value;
      ContentPrefix(v.data, w, j);
      WalkWithin(v, first, j);
      ReachBounds(v.clusterSize, offset + d, m);
      SliceOfPrefix(Content(v.data, w[..j]), Content(v.data, w), offset, n, d, m);
    }
  }

  lemma SliceOfPrefix(p: seq<byte>, q: seq<byte>, o: nat, n: nat, d: nat, m: nat)
    requires p <= q && o + d + m <= |p| && o + n <= |q| && d + m <= n
    ensures p[o + d..o + d + m] == q[o..o + n][d..d + m]
  {
    var x, y := p[o + d..o + d + m], q[o..o + n][d..d + m];
    forall i | 0 <= i < m ensures x[i] == y[i] {
      assert x[i] == p[o + d + i] == q[o + d + i];
      assert y[i] == q[o..o + n][d + i];
    }
  }

  lemma SliceAfter(a: seq<byte>, b: seq<byte>, r: nat, n: nat)
    requires r + n <= |b|
    ensures (a + b)[|a| + r..|a| + r + n] == b[r..r + n]
  {
  }

  lemma WholeMonotone(a: nat, b: nat, size: nat)
    requires a <= b && size > 0
    ensures Whole(a, size) <= Whole(b, size)
  {
    WholeAndRest(a, size);
    WholeAndRest(b, size);
    if Whole(a, size) > Whole(b, size) {
      MulLe(Whole(b, size) + 1, Whole(a, size), size);
    }
  }

  // ---- Opening a path

  const SLASH: byte := 0x2F
  const MAX_COMPONENTS: nat := 8
  const MAX_COMPONENT_BYTES: nat := 12

  predicate AllReaderBytes(s: seq<byte>) {
    forall i :: 0 <= i < |s| ==> ReaderByte(Upper(s[i]))
  }

  /** What the reader accepts of a path component. */
  predicate ReaderAccepts(component: seq<byte>) {
    && 1 <= |component| <= MAX_COMPONENT_BYTES && DOT !in Extension(component)
    && 1 <= |Stem(component)| <= 8 && |Extension(component)| <= 3
    && AllReaderBytes(Stem(component)) && AllReaderBytes(Extension(component))
  }

  function ReaderName(component: seq<byte>): (n: seq<byte>)
    requires ReaderAccepts(component)
    ensures |n| == 11
  {
    Pad(UpperAll(Stem(component)), 8) + Pad(UpperAll(Extension(component)), 3)
  }

  /** The name byte by byte: letters in upper case, both halves filled up with spaces. */
  lemma ReaderNameBytes(component: seq<byte>, i: nat)
    requires ReaderAccepts(component) && i < 11
    ensures var stem, extension, n := Stem(component), Extension(component), ReaderName(component);
      var half, k := if i < 8 then stem else extension, if i < 8 then i else i - 8;
      n[i] == if k >= |half| then 0x20 else if 97 <= half[k] <= 122 then half[k] - 32 else half[k]
  {
  }

  lemma ComponentParts(component: seq<byte>, i: nat)
    requires i < |component|
    ensures var stem, extension := Stem(component), Extension(component);
      component[i] == if i < |stem| then stem[i] else if i == |stem| then DOT else extension[i - |stem| - 1]
  {
  }

  lemma ReaderNameAccepted(component: seq<byte>)
    requires ReaderAccepts(component)
    ensures ComposerAccepts(component) && forall i :: 0 <= i < |component| ==> !ComposerOnly(component[i])
  {
    forall i | 0 <= i < |component|
      ensures !ComposerOnly(component[i]) && component[i] != 0x2F && component[i] != 0x5C
    {
      ComponentParts(component, i);
    }
    assert forall i :: 0 <= i < |Stem(component)| ==> ComposerByte(Upper(Stem(component)[i]));
    assert Stem([DOT]) == [] && Stem([DOT, DOT]) == [];
  }

  lemma ComposerNameAccepted(component: seq<byte>)
    requires ComposerAccepts(component) && forall i :: 0 <= i < |component| ==> !ComposerOnly(component[i])
    ensures ReaderAccepts(component)
  {
    var stem, extension := Stem(component), Extension(component);
    forall i | 0 <= i < |stem| ensures ReaderByte(Upper(stem[i])) {
      assert stem[i] == component[i];
    }
    forall i | 0 <= i < |extension| ensures ReaderByte(Upper(extension[i])) {
      assert extension[i] == component[|stem| + 1 + i];
    }
  }

  /** The reader accepts exactly the composer's names that avoid back quotes and braces, and reads them alike. */
  lemma NamesAgree(component: seq<byte>)
    ensures ReaderAccepts(component) <==>
      ComposerAccepts(component) && forall i :: 0 <= i < |component| ==> !ComposerOnly(component[i])
    ensures ReaderAccepts(component) ==> ShortName(component) == Some(ReaderName(component))
  {
    hide ComposerAccepts, ReaderAccepts, ComposerOnly;
    if ReaderAccepts(component) {
      ReaderNameAccepted(component);
    }
    if ComposerAccepts(component) && forall i :: 0 <= i < |component| ==> !ComposerOnly(component[i]) {
      ComposerNameAccepted(component);
    }
  }

  /** Index of the first slash, or the length. */
  function SlashIndex(s: seq<byte>): (k: nat)
    ensures k <= |s|
    ensures k < |s| ==> s[k] == SLASH
    ensures forall i :: 0 <= i < k ==> s[i] != SLASH
  {
    if s == [] || s[0] == SLASH then 0 else 1 + SlashIndex(s[1..])
  }

  predicate Printable(b: byte) {
    0x21 <= b <= 0x7E
  }

  predicate ComponentOk(component: seq<byte>, depth: nat) {
    && depth < MAX_COMPONENTS && ReaderAccepts(component)
    && forall i :: 0 <= i < |component| ==> Printable(component[i])
  }

  datatype Opened = Handle(first: nat, size: nat) | Refused(status: Status)

  /** Resolve what is left of a path from directory `c`. */
  function OpenFrom(v: Volume, c: nat, rest: seq<byte>, depth: nat): (o: Opened)
    requires v.Valid() && InRange(v.fat, c)
    decreases |rest|
  {
    var k := SlashIndex(rest);
    if !ComponentOk(rest[..k], depth) then Refused(BAD_PATH)
    else match Scan(v, c, ReaderName(rest[..k]), |v.fat| - 2)
      case Failed(status) => Refused(status)
      case Found(e) =>
        if k == |rest| then
          if IsDirectory(e) then Refused(NOT_REGULAR)
          else if FileSize(e) != 0 && !InRange(v.fat, FirstCluster(e)) then Refused(CORRUPT_CHAIN)
          else Handle(FirstCluster(e), FileSize(e))
        else if !IsDirectory(e) || !InRange(v.fat, FirstCluster(e)) then Refused(NOT_FOUND)
        else OpenFrom(v, FirstCluster(e), rest[k + 1..], depth + 1)
  }

  /** The outcome of opening an absolute path when no block fails. */
  function OpenSpec(v: Volume, root: nat, path: seq<byte>): (o: Opened)
    requires v.Valid() && InRange(v.fat, root)
  {
    if |path| < 2 || path[0] != SLASH then Refused(BAD_ARGUMENT) else OpenFrom(v, root, path[1..], 0)
  }
}
