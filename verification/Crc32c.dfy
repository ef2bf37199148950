/**
 CRC32C as two tools compute it, and what the checksum detects: any change confined to
 32 consecutive bits.
 */
module Crc32c {

  /** One shift of the reflected register. */
  function Shift(c: bv32): (d: bv32) {
    if c & 1 == 1 then (c >> 1) ^ 0x82F6_3B78 else c >> 1
  }

  /** The same shift with the polynomial selected by a mask. */
  function MaskShift(c: bv32): (d: bv32) {
    (c >> 1) ^ (0x82F6_3B78 & (0 - (c & 1)))
  }

  /** Undoes a shift: the top bit tells whether the polynomial was added. */
  function Unshift(d: bv32): (c: bv32) {
    if d & 0x8000_0000 != 0 then ((d ^ 0x82F6_3B78) << 1) | 1 else d << 1
  }

  function Xor(a: bv32, b: bv32): (c: bv32) {
    a ^ b
  }

  function Double(w: bv32): (d: bv32) {
    w << 1
  }

  predicate TopClear(w: bv32) {
    w & 0x8000_0000 == 0
  }

  // ---- Facts about words

  lemma ShiftsAgree(c: bv32)
    ensures MaskShift(c) == Shift(c)
  {
  }

  lemma Odd(c: bv32)
    requires c & 1 == 1
    ensures ((c >> 1) ^ 0x82F6_3B78) & 0x8000_0000 != 0
    ensures ((((c >> 1) ^ 0x82F6_3B78) ^ 0x82F6_3B78) << 1) | 1 == c
  {
  }

  lemma Even(c: bv32)
    requires c & 1 != 1
    ensures (c >> 1) & 0x8000_0000 == 0 && (c >> 1) << 1 == c
  {
  }

  lemma High(d: bv32)
    requires d & 0x8000_0000 != 0
    ensures (((d ^ 0x82F6_3B78) << 1) | 1) & 1 == 1
    ensures ((((d ^ 0x82F6_3B78) << 1) | 1) >> 1) ^ 0x82F6_3B78 == d
  {
  }

  lemma Low(d: bv32)
    requires d & 0x8000_0000 == 0
    ensures (d << 1) & 1 != 1 && (d << 1) >> 1 == d
  {
  }

  lemma UnshiftOdd(c: bv32, d: bv32)
    requires c & 1 == 1 && d == (c >> 1) ^ 0x82F6_3B78
    ensures Unshift(d) == c
  {
    Odd(c);
  }

  lemma UnshiftEven(c: bv32, d: bv32)
    requires c & 1 != 1 && d == c >> 1
    ensures Unshift(d) == c
  {
    Even(c);
  }

  lemma UnshiftShift(c: bv32)
    ensures Unshift(Shift(c)) == c
  {
    hide Unshift;
    var d := Shift(c);
    if c & 1 == 1 { UnshiftOdd(c, d); } else { UnshiftEven(c, d); }
  }

  /** A shift is a bijection on registers. */
  lemma ShiftIsBijective(c: bv32)
    ensures Unshift(Shift(c)) == c && Shift(Unshift(c)) == c
  {
    UnshiftShift(c);
    if c & 0x8000_0000 != 0 { High(c); } else { Low(c); }
  }

  lemma Unfold(a: bv32, b: bv32)
    ensures Xor(a, b) == a ^ b && Double(b) == b << 1 && (TopClear(b) <==> b & 0x8000_0000 == 0)
  {
  }

  lemma LinearOdd(c: bv32, t: bv32)
    requires t & 0x8000_0000 == 0 && c & 1 == 1
    ensures (c ^ (t << 1)) & 1 == 1 && ((c ^ (t << 1)) >> 1) ^ 0x82F6_3B78 == ((c >> 1) ^ 0x82F6_3B78) ^ t
  {
  }

  lemma LinearEven(c: bv32, t: bv32)
    requires t & 0x8000_0000 == 0 && c & 1 != 1
    ensures (c ^ (t << 1)) & 1 != 1 && (c ^ (t << 1)) >> 1 == (c >> 1) ^ t
  {
  }

  lemma ShiftOf(c: bv32)
    ensures c & 1 == 1 ==> Shift(c) == (c >> 1) ^ 0x82F6_3B78
    ensures c & 1 != 1 ==> Shift(c) == c >> 1
  {
  }

  lemma LinearAt(c: bv32, t: bv32, x: bv32)
    requires t & 0x8000_0000 == 0 && x == c ^ (t << 1)
    ensures Shift(x) == Shift(c) ^ t
  {
    hide Shift;
    ShiftOf(c);
    ShiftOf(x);
    if c & 1 == 1 { LinearOdd(c, t); } else { LinearEven(c, t); }
  }

  /** A word that does not reach the top bit passes through the register as if it came one shift later. */
  lemma ShiftIsLinear(c: bv32, t: bv32)
    requires TopClear(t)
    ensures Shift(Xor(c, Double(t))) == Xor(Shift(c), t)
  {
    hide Shift, Xor, Double, TopClear;
    Unfold(c, t);
    Unfold(c, Double(t));
    Unfold(Shift(c), t);
    LinearAt(c, t, Xor(c, Double(t)));
  }

  lemma XorCancels(c: bv32, a: bv32, b: bv32)
    requires Xor(c, a) == Xor(c, b)
    ensures a == b
  {
  }

  lemma XorSame(a: bv32, b: bv32, c: bv32)
    requires Xor(a, c) == Xor(b, c)
    ensures a == b
  {
  }

  // ---- The register over bits

  function Bit(b: bool): (c: bv32) {
    if b then 1 else 0
  }

  /** The register after a string of bits, first bit first. */
  function Run(c: bv32, bits: seq<bool>): (d: bv32)
    decreases |bits|
  {
    if bits == [] then c else Run(Shift(Xor(c, Bit(bits[0]))), bits[1..])
  }

  function Shifts(c: bv32, n: nat): (d: bv32)
    decreases n
  {
    if n == 0 then c else Shifts(Shift(c), n - 1)
  }

  function Push(w: bv32, b: bool): (r: bv32) {
    Double(w) | Bit(b)
  }

  /** Bits as a word, first bit lowest. */
  function Word(bits: seq<bool>): (w: bv32) {
    if bits == [] then 0 else Push(Word(bits[1..]), bits[0])
  }

  /** The top `k` bits are clear. */
  predicate Room(w: bv32, k: nat)
    decreases k
  {
    k == 0 || (TopClear(w) && Room(Double(w), k - 1))
  }

  lemma ZeroDoubles()
    ensures TopClear(0) && Double(0) == 0
  {
  }

  lemma {:induction false} RoomZero(k: nat)
    ensures Room(0, k)
  {
    ZeroDoubles();
    if k > 0 { RoomZero(k - 1); }
  }

  lemma OrDoubles(x: bv32, y: bv32)
    requires TopClear(x) && TopClear(y)
    ensures TopClear(x | y) && Double(x | y) == Double(x) | Double(y)
  {
  }

  lemma {:induction false} RoomOr(x: bv32, y: bv32, k: nat)
    requires Room(x, k) && Room(y, k)
    ensures Room(x | y, k)
    decreases k
  {
    hide TopClear, Double;
    if k > 0 {
      OrDoubles(x, y);
      RoomOr(Double(x), Double(y), k - 1);
    }
  }

  lemma {:induction false} RoomLess(w: bv32, k: nat, j: nat)
    requires Room(w, k) && j <= k
    ensures Room(w, j)
    decreases j
  {
    hide TopClear, Double;
    if j > 0 { RoomLess(Double(w), k - 1, j - 1); }
  }

  lemma OneStep(w: bv32, d: bv32, k: nat)
    requires TopClear(w) && Double(w) == d && Room(d, k)
    ensures Room(w, k + 1)
  {
  }

  lemma OneHasRoomUpper()
    ensures Room(0x1_0000, 15)
  {
    hide Room;
    assert Room(0x8000_0000, 0) by { RoomNone(0x8000_0000); }
    OneStep(0x4000_0000, 0x8000_0000, 0);
    OneStep(0x2000_0000, 0x4000_0000, 1);
    OneStep(0x1000_0000, 0x2000_0000, 2);
    OneStep(0x800_0000, 0x1000_0000, 3);
    OneStep(0x400_0000, 0x800_0000, 4);
    OneStep(0x200_0000, 0x400_0000, 5);
    OneStep(0x100_0000, 0x200_0000, 6);
    OneStep(0x80_0000, 0x100_0000, 7);
    OneStep(0x40_0000, 0x80_0000, 8);
    OneStep(0x20_0000, 0x40_0000, 9);
    OneStep(0x10_0000, 0x20_0000, 10);
    OneStep(0x8_0000, 0x10_0000, 11);
    OneStep(0x4_0000, 0x8_0000, 12);
    OneStep(0x2_0000, 0x4_0000, 13);
    OneStep(0x1_0000, 0x2_0000, 14);
  }

  lemma RoomNone(w: bv32)
    ensures Room(w, 0)
  {
  }

  /** The lowest bit has room for 31 doublings. */
  lemma OneHasRoom()
    ensures Room(1, 31)
  {
    hide Room;
    OneHasRoomUpper();
    OneStep(0x8000, 0x1_0000, 15);
    OneStep(0x4000, 0x8000, 16);
    OneStep(0x2000, 0x4000, 17);
    OneStep(0x1000, 0x2000, 18);
    OneStep(0x800, 0x1000, 19);
    OneStep(0x400, 0x800, 20);
    OneStep(0x200, 0x400, 21);
    OneStep(0x100, 0x200, 22);
    OneStep(0x80, 0x100, 23);
    OneStep(0x40, 0x80, 24);
    OneStep(0x20, 0x40, 25);
    OneStep(0x10, 0x20, 26);
    OneStep(0x8, 0x10, 27);
    OneStep(0x4, 0x8, 28);
    OneStep(0x2, 0x4, 29);
    OneStep(0x1, 0x2, 30);
  }

  lemma BitHasRoom(b: bool, k: nat)
    requires k <= 31
    ensures Room(Bit(b), k)
  {
    hide Room;
    OneHasRoom();
    RoomZero(31);
    RoomLess(Bit(b), 31, k);
  }

  lemma {:induction false} WordRoom(bits: seq<bool>)
    requires |bits| <= 32
    ensures Room(Word(bits), 32 - |bits|)
  {
    hide TopClear, Double, Bit;
    if bits == [] {
      RoomZero(32);
    } else {
      var rest, k := bits[1..], 32 - |bits|;
      WordRoom(rest);
      BitHasRoom(bits[0], k);
      RoomOr(Double(Word(rest)), Bit(bits[0]), k);
    }
  }

  lemma LowXor(c: bv32, w: bv32, x: bv32)
    requires x & 0xFFFF_FFFE == 0
    ensures (c ^ x) ^ (w << 1) == c ^ ((w << 1) | x)
  {
  }

  lemma BitIsLow(b: bool)
    ensures Bit(b) & 0xFFFF_FFFE == 0
  {
  }

  lemma PushXor(c: bv32, w: bv32, b: bool)
    ensures Xor(Xor(c, Bit(b)), Double(w)) == Xor(c, Push(w, b))
  {
    hide Bit, Xor, Double, Push;
    var x, y := Bit(b), Push(w, b);
    BitIsLow(b);
    LowXor(c, w, x);
    PushIs(w, b);
    Unfold(c, x);
    Unfold(w, w);
    Unfold(c, y);
    Unfold(Xor(c, x), Double(w));
  }

  /** Feeding up to 32 bits is loading their word and shifting. */
  lemma {:induction false} RunWord(c: bv32, bits: seq<bool>)
    requires |bits| <= 32
    ensures Run(c, bits) == Shifts(Xor(c, Word(bits)), |bits|)
    decreases |bits|
  {
    hide Shift, Xor, Double, Push, Bit, TopClear;
    if bits == [] {
      XorZero(c);
    } else {
      var rest, mixed := bits[1..], Xor(c, Bit(bits[0]));
      var w := Word(rest);
      RunWord(Shift(mixed), rest);
      WordRoom(rest);
      ShiftIsLinear(mixed, w);
      PushXor(c, w, bits[0]);
    }
  }

  lemma XorZero(c: bv32)
    ensures Xor(c, 0) == c
  {
  }

  lemma PushInjective(v: bv32, w: bv32, a: bool, b: bool)
    requires TopClear(v) && TopClear(w) && Push(v, a) == Push(w, b)
    ensures v == w && a == b
  {
    hide Bit, Push, TopClear, Double;
    BitIsLow(a);
    BitIsLow(b);
    Unfold(v, v);
    Unfold(w, w);
    PushIs(v, a);
    PushIs(w, b);
    PushParts(v, w, Bit(a), Bit(b));
    BitInjective(a, b);
  }

  lemma PushIs(w: bv32, b: bool)
    ensures Push(w, b) == (w << 1) | Bit(b)
  {
    hide Bit;
  }

  lemma BitInjective(a: bool, b: bool)
    requires Bit(a) == Bit(b)
    ensures a == b
  {
  }

  lemma PushParts(v: bv32, w: bv32, x: bv32, y: bv32)
    requires v & 0x8000_0000 == 0 && w & 0x8000_0000 == 0 && x & 0xFFFF_FFFE == 0 && y & 0xFFFF_FFFE == 0
    requires (v << 1) | x == (w << 1) | y
    ensures v == w && x == y
  {
  }

  lemma {:induction false} WordInjective(a: seq<bool>, b: seq<bool>)
    requires |a| == |b| <= 32 && Word(a) == Word(b)
    ensures a == b
    decreases |a|
  {
    hide TopClear, Double, Bit, Push;
    if a != [] {
      WordRoom(a[1..]);
      WordRoom(b[1..]);
      PushInjective(Word(a[1..]), Word(b[1..]), a[0], b[0]);
      WordInjective(a[1..], b[1..]);
      assert a == [a[0]] + a[1..] && b == [b[0]] + b[1..];
    }
  }

  lemma {:induction false} ShiftsInjective(c: bv32, d: bv32, n: nat)
    requires Shifts(c, n) == Shifts(d, n)
    ensures c == d
    decreases n
  {
    hide Shift, Unshift;
    if n > 0 {
      ShiftsInjective(Shift(c), Shift(d), n - 1);
      ShiftIsBijective(c);
      ShiftIsBijective(d);
    }
  }

  /** Different registers stay different under the same bits. */
  lemma {:induction false} RunInjective(c: bv32, d: bv32, bits: seq<bool>)
    requires Run(c, bits) == Run(d, bits)
    ensures c == d
    decreases |bits|
  {
    hide Shift, Unshift, Xor, Bit;
    if bits != [] {
      var x, y := Xor(c, Bit(bits[0])), Xor(d, Bit(bits[0]));
      RunInjective(Shift(x), Shift(y), bits[1..]);
      ShiftIsBijective(x);
      ShiftIsBijective(y);
      XorSame(c, d, Bit(bits[0]));
    }
  }

  lemma {:induction false} RunConcat(c: bv32, a: seq<bool>, b: seq<bool>)
    ensures Run(c, a + b) == Run(Run(c, a), b)
    decreases |a|
  {
    hide Shift, Xor, Bit;
    if a == [] {
      assert a + b == b;
    } else {
      assert (a + b)[1..] == a[1..] + b;
      RunConcat(Shift(Xor(c, Bit(a[0]))), a[1..], b);
    }
  }

  /** Up to 32 different bits between equal bits always change the register. */
  lemma WindowChanges(c: bv32, before: seq<bool>, x: seq<bool>, y: seq<bool>, after: seq<bool>)
    requires |x| == |y| <= 32 && x != y
    ensures Run(c, before + x + after) != Run(c, before + y + after)
  {
    hide Run, Shifts, Word;
    RunConcat(c, before + x, after);
    RunConcat(c, before + y, after);
    RunConcat(c, before, x);
    RunConcat(c, before, y);
    var r := Run(c, before);
    if Run(c, before + x + after) == Run(c, before + y + after) {
      RunInjective(Run(r, x), Run(r, y), after);
      RunWord(r, x);
      RunWord(r, y);
      ShiftsInjective(Xor(r, Word(x)), Xor(r, Word(y)), |x|);
      XorCancels(r, Word(x), Word(y));
      WordInjective(x, y);
    }
  }

  // ---- Bytes

  /** A byte in a word. */
  type octet = w: bv32 | w & 0xFFFF_FF00 == 0

  /** The lowest `n` bits of a word, lowest first. */
  function Spread(w: bv32, n: nat): (bits: seq<bool>)
    ensures |bits| == n
    decreases n
  {
    if n == 0 then [] else [w & 1 == 1] + Spread(w >> 1, n - 1)
  }

  predicate Fits(w: bv32, n: nat)
    decreases n
  {
    if n == 0 then w == 0 else Fits(w >> 1, n - 1)
  }

  lemma Rejoin(w: bv32)
    ensures Push(w >> 1, w & 1 == 1) == w
  {
    hide Push, Double, Bit;
    var half, low := w >> 1, w & 1 == 1;
    RejoinParts(w);
    BitOf(w);
    PushIs(half, low);
  }

  lemma RejoinParts(w: bv32)
    ensures ((w >> 1) << 1) | (w & 1) == w
  {
  }

  lemma BitOf(w: bv32)
    ensures Bit(w & 1 == 1) == w & 1
  {
  }

  lemma {:induction false} WordOfSpread(w: bv32, n: nat)
    requires Fits(w, n)
    ensures Word(Spread(w, n)) == w
    decreases n
  {
    hide Push;
    if n > 0 {
      WordOfSpread(w >> 1, n - 1);
      Rejoin(w);
      assert Spread(w, n)[1..] == Spread(w >> 1, n - 1);
    }
  }

  lemma FitStep(w: bv32, m: bv32, h: bv32, n: nat)
    requires w & m == 0 && h == (m >> 1) | 0x8000_0000
    ensures (w >> 1) & h == 0
    ensures n > 0 && Fits(w >> 1, n - 1) ==> Fits(w, n)
  {
    FitHalf(w, m);
  }

  lemma FitHalf(w: bv32, m: bv32)
    requires w & m == 0
    ensures (w >> 1) & ((m >> 1) | 0x8000_0000) == 0
  {
  }

  lemma NoBits(w: bv32)
    requires w & 0xFFFF_FFFF == 0
    ensures Fits(w, 0)
  {
  }

  lemma FourBits(w: bv32)
    requires w & 0xFFFF_FFF0 == 0
    ensures Fits(w, 4)
  {
    hide Fits;
    var w1 := w >> 1;
    var w2 := w1 >> 1;
    var w3 := w2 >> 1;
    FitStep(w, 0xFFFF_FFF0, 0xFFFF_FFF8, 4);
    FitStep(w1, 0xFFFF_FFF8, 0xFFFF_FFFC, 3);
    FitStep(w2, 0xFFFF_FFFC, 0xFFFF_FFFE, 2);
    FitStep(w3, 0xFFFF_FFFE, 0xFFFF_FFFF, 1);
    NoBits(w3 >> 1);
  }

  lemma OctetFits(v: octet)
    ensures Fits(v, 8)
  {
    hide Fits;
    var w1 := v >> 1;
    var w2 := w1 >> 1;
    var w3 := w2 >> 1;
    var w4 := w3 >> 1;
    FitStep(v, 0xFFFF_FF00, 0xFFFF_FF80, 8);
    FitStep(w1, 0xFFFF_FF80, 0xFFFF_FFC0, 7);
    FitStep(w2, 0xFFFF_FFC0, 0xFFFF_FFE0, 6);
    FitStep(w3, 0xFFFF_FFE0, 0xFFFF_FFF0, 5);
    FourBits(w4);
  }

  /** A byte string as bits, lowest bit of the first byte first. */
  function Bits(data: seq<octet>): (bits: seq<bool>)
    ensures |bits| == 8 * |data|
  {
    if data == [] then [] else Bits(data[..|data| - 1]) + Spread(data[|data| - 1], 8)
  }

  function Absorb(c: bv32, v: octet): (d: bv32) {
    Shifts(Xor(c, v), 8)
  }

  function Register(c: bv32, data: seq<octet>): (d: bv32) {
    if data == [] then c else Absorb(Register(c, data[..|data| - 1]), data[|data| - 1])
  }

  /** The checksum of a byte string. */
  function Crc(data: seq<octet>): (r: bv32) {
    Xor(Register(0xFFFF_FFFF, data), 0xFFFF_FFFF)
  }

  lemma AbsorbRuns(c: bv32, v: octet)
    ensures Absorb(c, v) == Run(c, Spread(v, 8))
  {
    hide Fits, Word, Spread, Run, Shifts, Xor;
    OctetFits(v);
    WordOfSpread(v, 8);
    RunWord(c, Spread(v, 8));
  }

  function Unshifts(d: bv32, n: nat): (c: bv32)
    decreases n
  {
    if n == 0 then d else Unshift(Unshifts(d, n - 1))
  }

  lemma {:induction false} UnshiftsInvert(d: bv32, n: nat)
    ensures Shifts(Unshifts(d, n), n) == d
    decreases n
  {
    hide Shift, Unshift;
    if n > 0 {
      ShiftIsBijective(Unshifts(d, n - 1));
      UnshiftsInvert(d, n - 1);
    }
  }

  lemma XorTwice(c: bv32, v: bv32)
    ensures Xor(Xor(c, v), v) == c
  {
  }

  /** Each byte update is a bijection on registers: no two meet, and every register is reached. */
  lemma AbsorbIsBijective(c: bv32, d: bv32, v: octet)
    ensures Absorb(c, v) == Absorb(d, v) ==> c == d
    ensures Absorb(Xor(Unshifts(d, 8), v), v) == d
  {
    hide Shifts, Xor, Unshifts;
    if Absorb(c, v) == Absorb(d, v) {
      ShiftsInjective(Xor(c, v), Xor(d, v), 8);
      XorSame(c, d, v);
    }
    XorTwice(Unshifts(d, 8), v);
    UnshiftsInvert(d, 8);
  }

  lemma {:induction false} RegisterRuns(c: bv32, data: seq<octet>)
    ensures Register(c, data) == Run(c, Bits(data))
  {
    hide Absorb, Spread, Run;
    if data == [] {
      RunNothing(c);
    } else {
      var n := |data| - 1;
      RegisterRuns(c, data[..n]);
      AbsorbRuns(Register(c, data[..n]), data[n]);
      RunConcat(c, Bits(data[..n]), Spread(data[n], 8));
    }
  }

  lemma RunNothing(c: bv32)
    ensures Run(c, []) == c && Shifts(c, 0) == c && Register(c, []) == c
  {
  }

  lemma {:induction false} BitsInjective(a: seq<octet>, b: seq<octet>)
    requires |a| == |b| && Bits(a) == Bits(b)
    ensures a == b
  {
    hide Spread;
    if a != [] {
      var n := |a| - 1;
      assert Bits(a)[..8 * n] == Bits(a[..n]) && Bits(b)[..8 * n] == Bits(b[..n]);
      assert Bits(a)[8 * n..] == Spread(a[n], 8) && Bits(b)[8 * n..] == Spread(b[n], 8);
      BitsInjective(a[..n], b[..n]);
      SpreadInjective(a[n], b[n]);
      assert a == a[..n] + [a[n]] && b == b[..n] + [b[n]];
    }
  }

  lemma SpreadInjective(v: octet, w: octet)
    requires Spread(v, 8) == Spread(w, 8)
    ensures v == w
  {
    hide Spread, Fits, Word;
    OctetFits(v);
    OctetFits(w);
    WordOfSpread(v, 8);
    WordOfSpread(w, 8);
  }

  /** Any change confined to 32 consecutive bits changes the checksum. */
  lemma BurstDetected(a: seq<octet>, b: seq<octet>, k: nat, n: nat)
    requires |a| == |b| && a != b && n <= 32 && k + n <= 8 * |a|
    requires Bits(a)[..k] == Bits(b)[..k] && Bits(a)[k + n..] == Bits(b)[k + n..]
    ensures Crc(a) != Crc(b)
  {
    hide Bits, Run, Register, Xor;
    var p, q := Bits(a), Bits(b);
    var before, x, y, after := p[..k], p[k..k + n], q[k..k + n], p[k + n..];
    assert p == before + x + after;
    assert q == before + y + after;
    if x == y {
      BitsInjective(a, b);
    }
    WindowChanges(0xFFFF_FFFF, before, x, y, after);
    RegisterRuns(0xFFFF_FFFF, a);
    RegisterRuns(0xFFFF_FFFF, b);
    if Crc(a) == Crc(b) {
      XorSame(Register(0xFFFF_FFFF, a), Register(0xFFFF_FFFF, b), 0xFFFF_FFFF);
    }
  }

  lemma {:induction false} BitsConcat(a: seq<octet>, b: seq<octet>)
    ensures Bits(a + b) == Bits(a) + Bits(b)
    decreases |b|
  {
    hide Spread;
    if b == [] {
      assert a + b == a;
    } else {
      var n := |b| - 1;
      assert (a + b)[..|a| + n] == a + b[..n];
      BitsConcat(a, b[..n]);
      assert Bits(a) + Bits(b[..n]) + Spread(b[n], 8) == Bits(a) + (Bits(b[..n]) + Spread(b[n], 8));
    }
  }

  /** Two strings of one length that differ only within four consecutive bytes have different checksums. */
  lemma BytesDetected(before: seq<octet>, x: seq<octet>, y: seq<octet>, after: seq<octet>)
    requires |x| == |y| <= 4 && x != y
    ensures Crc(before + x + after) != Crc(before + y + after)
  {
    hide Bits, Crc;
    var a, b := before + x + after, before + y + after;
    BitsConcat(before, x);
    BitsConcat(before, y);
    BitsConcat(before + x, after);
    BitsConcat(before + y, after);
    var k, n := 8 * |before|, 8 * |x|;
    assert Bits(a)[..k] == Bits(before) && Bits(b)[..k] == Bits(before);
    assert Bits(a)[k + n..] == Bits(after) && Bits(b)[k + n..] == Bits(after);
    assert a[|before|..|before| + |x|] == x && b[|before|..|before| + |x|] == y;
    BurstDetected(a, b, k, n);
  }

  // ---- The residue

  /** Four bytes that spell a word, lowest first. */
  predicate Spells(t: seq<octet>, w: bv32) {
    |t| == 4 && var a: bv32, b: bv32, c: bv32, d: bv32 := t[0], t[1], t[2], t[3];
                w == a | (b << 8) | (c << 16) | (d << 24)
  }

  function Or(a: bv32, b: bv32): (c: bv32) {
    a | b
  }

  function Doubles(w: bv32, n: nat): (d: bv32)
    decreases n
  {
    if n == 0 then w else Double(Doubles(w, n - 1))
  }

  lemma OrPush(x: bv32, y: bv32, b: bv32)
    ensures ((x | y) << 1) | b == ((x << 1) | b) | (y << 1)
  {
  }

  lemma PushOr(x: bv32, y: bv32, b: bool)
    ensures Push(Or(x, y), b) == Or(Push(x, b), Double(y))
  {
    OrPush(x, y, Bit(b));
  }

  lemma OrZero(w: bv32)
    ensures Or(0, w) == w
  {
  }

  /** The word of some bits in front of others. */
  lemma {:induction false} WordJoin(v: bv32, n: nat, rest: seq<bool>)
    requires Fits(v, n)
    ensures Word(Spread(v, n) + rest) == Or(v, Doubles(Word(rest), n))
    decreases n
  {
    hide Push, Or, Double;
    if n == 0 {
      assert Spread(v, 0) + rest == rest;
      OrZero(Word(rest));
    } else {
      var half, low := v >> 1, v & 1 == 1;
      var bits := Spread(v, n) + rest;
      assert bits[0] == low && bits[1..] == Spread(half, n - 1) + rest;
      WordJoin(half, n - 1, rest);
      PushOr(half, Doubles(Word(rest), n - 1), low);
      Rejoin(v);
    }
  }

  lemma FourDoubles(w: bv32, n: nat, d: bv32)
    requires Doubles(w, n) == d
    ensures Doubles(w, n + 4) == d << 4
  {
    hide Double;
    var a, b, c, e := Double(d), Double(Double(d)), Double(Double(Double(d))), Double(Double(Double(Double(d))));
    assert Doubles(w, n + 1) == a;
    assert Doubles(w, n + 2) == b;
    assert Doubles(w, n + 3) == c;
    DoubleFour(d, a, b, c, e);
  }

  lemma DoubleFour(d: bv32, a: bv32, b: bv32, c: bv32, e: bv32)
    requires a == Double(d) && b == Double(a) && c == Double(b) && e == Double(c)
    ensures e == d << 4
  {
  }

  lemma FourTwice(w: bv32)
    ensures (w << 4) << 4 == w << 8
  {
  }

  lemma EightDoubles(w: bv32)
    ensures Doubles(w, 8) == w << 8
  {
    NoDoubles(w);
    hide Doubles;
    FourDoubles(w, 0, w);
    FourDoubles(w, 4, w << 4);
    FourTwice(w);
  }

  lemma NoDoubles(w: bv32)
    ensures Doubles(w, 0) == w
  {
  }

  lemma SpellOut(a: bv32, b: bv32, c: bv32, d: bv32)
    ensures a | ((b | ((c | ((d | (0 << 8)) << 8)) << 8)) << 8) == a | (b << 8) | (c << 16) | (d << 24)
  {
  }

  /** The bits of four bytes are those of the word they spell. */
  lemma SpelledWord(t: seq<octet>, w: bv32)
    requires Spells(t, w)
    ensures Word(Bits(t)) == w && |Bits(t)| == 32
  {
    hide Spread, Word, Doubles, Fits;
    var p, q, r, s := Spread(t[0], 8), Spread(t[1], 8), Spread(t[2], 8), Spread(t[3], 8);
    FourBytes(t);
    var tail: seq<bool> := [];
    var z := s + tail;
    var y := r + z;
    var x := q + y;
    assert Bits(t) == p + x;
    ByteJoin(t[3], tail);
    ByteJoin(t[2], z);
    ByteJoin(t[1], y);
    ByteJoin(t[0], x);
    NoWord();
    SpellOut(t[0], t[1], t[2], t[3]);
  }

  lemma NoWord()
    ensures Word([]) == 0
  {
  }

  lemma ByteJoin(v: octet, rest: seq<bool>)
    ensures Word(Spread(v, 8) + rest) == v | (Word(rest) << 8)
  {
    hide Spread, Word, Doubles, Fits;
    OctetFits(v);
    WordJoin(v, 8, rest);
    EightDoubles(Word(rest));
  }

  lemma FourBytes(t: seq<octet>)
    requires |t| == 4
    ensures Bits(t) == Spread(t[0], 8) + (Spread(t[1], 8) + (Spread(t[2], 8) + (Spread(t[3], 8) + [])))
  {
    hide Spread, Bits;
    BitsNext(t, 3);
    BitsNext(t, 2);
    BitsNext(t, 1);
    BitsNext(t, 0);
    assert t[..4] == t && t[..0] == [];
    NoByte();
  }

  lemma NoByte()
    ensures Bits([]) == []
  {
  }

  lemma BitsNext(t: seq<octet>, i: nat)
    requires i < |t|
    ensures Bits(t[..i + 1]) == Bits(t[..i]) + Spread(t[i], 8)
  {
    hide Spread;
    assert t[..i + 1][..i] == t[..i];
  }

  lemma Residue1()
    ensures Shift(Shift(Shift(Shift(0xFFFF_FFFF)))) == 0xFC91_908A
  {
    assert Shift(0xFFFF_FFFF) == 0xFD09_C487;
    assert Shift(0xFD09_C487) == 0xFC72_D93B;
    assert Shift(0xFC72_D93B) == 0xFCCF_57E5;
    assert Shift(0xFCCF_57E5) == 0xFC91_908A;
  }

  lemma Residue2()
    ensures Shift(Shift(Shift(Shift(0xFC91_908A)))) == 0xAD82_ACAE
  {
    assert Shift(0xFC91_908A) == 0x7E48_C845;
    assert Shift(0x7E48_C845) == 0xBDD2_5F5A;
    assert Shift(0xBDD2_5F5A) == 0x5EE9_2FAD;
    assert Shift(0x5EE9_2FAD) == 0xAD82_ACAE;
  }

  lemma Residue3()
    ensures Shift(Shift(Shift(Shift(0xAD82_ACAE)))) == 0xE9E8_82D0
  {
    assert Shift(0xAD82_ACAE) == 0x56C1_5657;
    assert Shift(0x56C1_5657) == 0xA996_9053;
    assert Shift(0xA996_9053) == 0xD63D_7351;
    assert Shift(0xD63D_7351) == 0xE9E8_82D0;
  }

  lemma Residue4()
    ensures Shift(Shift(Shift(Shift(0xE9E8_82D0)))) == 0x0E9E_882D
  {
    assert Shift(0xE9E8_82D0) == 0x74F4_4168;
    assert Shift(0x74F4_4168) == 0x3A7A_20B4;
    assert Shift(0x3A7A_20B4) == 0x1D3D_105A;
    assert Shift(0x1D3D_105A) == 0x0E9E_882D;
  }

  lemma Residue5()
    ensures Shift(Shift(Shift(Shift(0x0E9E_882D)))) == 0xD33A_0929
  {
    assert Shift(0x0E9E_882D) == 0x85B9_7F6E;
    assert Shift(0x85B9_7F6E) == 0x42DC_BFB7;
    assert Shift(0x42DC_BFB7) == 0xA398_64A3;
    assert Shift(0xA398_64A3) == 0xD33A_0929;
  }

  lemma Residue6()
    ensures Shift(Shift(Shift(Shift(0xD33A_0929)))) == 0x9F9B_5C85
  {
    assert Shift(0xD33A_0929) == 0xEB6B_3FEC;
    assert Shift(0xEB6B_3FEC) == 0x75B5_9FF6;
    assert Shift(0x75B5_9FF6) == 0x3ADA_CFFB;
    assert Shift(0x3ADA_CFFB) == 0x9F9B_5C85;
  }

  lemma Residue7()
    ensures Shift(Shift(Shift(Shift(0x9F9B_5C85)))) == 0x58DC_6F1B
  {
    assert Shift(0x9F9B_5C85) == 0xCD3B_953A;
    assert Shift(0xCD3B_953A) == 0x669D_CA9D;
    assert Shift(0x669D_CA9D) == 0xB1B8_DE36;
    assert Shift(0xB1B8_DE36) == 0x58DC_6F1B;
  }

  lemma Residue8()
    ensures Shift(Shift(Shift(Shift(0x58DC_6F1B)))) == 0xB798_B438
  {
    assert Shift(0x58DC_6F1B) == 0xAE98_0CF5;
    assert Shift(0xAE98_0CF5) == 0xD5BA_3D02;
    assert Shift(0xD5BA_3D02) == 0x6ADD_1E81;
    assert Shift(0x6ADD_1E81) == 0xB798_B438;
  }

  lemma {:induction false} ShiftsSplit(c: bv32, n: nat)
    requires n >= 4
    ensures Shifts(c, n) == Shifts(Shift(Shift(Shift(Shift(c)))), n - 4)
  {
    hide Shift;
    assert Shifts(c, n) == Shifts(Shift(c), n - 1);
    var d := Shift(c);
    assert Shifts(d, n - 1) == Shifts(Shift(d), n - 2);
    var e := Shift(d);
    assert Shifts(e, n - 2) == Shifts(Shift(e), n - 3);
  }

  lemma AllOnes()
    ensures Shifts(0xFFFF_FFFF, 32) == 0xB798_B438
  {
    hide Shift, Shifts;
    Residue1();
    ShiftsSplit(0xFFFF_FFFF, 32);
    Residue2();
    ShiftsSplit(0xFC91_908A, 28);
    Residue3();
    ShiftsSplit(0xAD82_ACAE, 24);
    Residue4();
    ShiftsSplit(0xE9E8_82D0, 20);
    Residue5();
    ShiftsSplit(0x0E9E_882D, 16);
    Residue6();
    ShiftsSplit(0xD33A_0929, 12);
    Residue7();
    ShiftsSplit(0x9F9B_5C85, 8);
    Residue8();
    ShiftsSplit(0x58DC_6F1B, 4);
    RunNothing(0xB798_B438);
  }

  lemma XorOnes(c: bv32)
    ensures Xor(c, Xor(c, 0xFFFF_FFFF)) == 0xFFFF_FFFF
  {
  }

  /** A string followed by its own checksum, lowest byte first, always has the same checksum. */
  lemma ResidueIsConstant(data: seq<octet>, t: seq<octet>)
    requires Spells(t, Crc(data))
    ensures Crc(data + t) == 0x4867_4BC7
  {
    hide Register, Run, Shifts, Xor, Word, Bits, Spells;
    var c := Register(0xFFFF_FFFF, data);
    SpelledWord(t, Crc(data));
    RegisterRuns(0xFFFF_FFFF, data);
    RegisterRuns(0xFFFF_FFFF, data + t);
    BitsConcat(data, t);
    RunConcat(0xFFFF_FFFF, Bits(data), Bits(t));
    RunWord(c, Bits(t));
    XorOnes(c);
    AllOnes();
    LastXor();
  }

  lemma LastXor()
    ensures Xor(0xB798_B438, 0xFFFF_FFFF) == 0x4867_4BC7
  {
  }

  /** The empty string has checksum zero. */
  lemma EmptyCrc()
    ensures Crc([]) == 0
  {
    RunNothing(0xFFFF_FFFF);
  }

  // ---- The two implementations

  lemma {:induction false} ShiftsEnd(c: bv32, n: nat)
    ensures Shifts(c, n + 1) == Shift(Shifts(c, n))
    decreases n
  {
    hide Shift;
    if n > 0 {
      ShiftsEnd(Shift(c), n - 1);
    }
  }

  lemma RegisterNext(c: bv32, data: seq<octet>, i: nat)
    requires i < |data|
    ensures Register(c, data[..i + 1]) == Absorb(Register(c, data[..i]), data[i])
  {
    hide Absorb;
    assert data[..i + 1][..i] == data[..i];
  }

  /** The checksum of the layout tool. */
  method MaskedCrc(data: seq<octet>) returns (r: bv32)
    ensures r == Crc(data)
  {
    hide Shift, MaskShift, Shifts, Register, Xor;
    var crc: bv32 := 0xFFFF_FFFF;
    RunNothing(crc);
    assert data[..0] == [];
    for i := 0 to |data|
      invariant crc == Register(0xFFFF_FFFF, data[..i])
    {
      RegisterNext(0xFFFF_FFFF, data, i);
      crc := Xor(crc, data[i]);
      ghost var mixed := crc;
      RunNothing(mixed);
      for k := 0 to 8
        invariant crc == Shifts(mixed, k)
      {
        ShiftsEnd(mixed, k);
        ShiftsAgree(crc);
        crc := MaskShift(crc);
      }
    }
    assert data[..|data|] == data;
    return Xor(crc, 0xFFFF_FFFF);
  }

  /** The checksum of the boot confirmation inspector. */
  method BranchingCrc(data: seq<octet>) returns (r: bv32)
    ensures r == Crc(data)
  {
    hide Shift, Shifts, Register, Xor;
    var crc: bv32 := 0xFFFF_FFFF;
    RunNothing(crc);
    assert data[..0] == [];
    for i := 0 to |data|
      invariant crc == Register(0xFFFF_FFFF, data[..i])
    {
      RegisterNext(0xFFFF_FFFF, data, i);
      crc := Xor(crc, data[i]);
      ghost var mixed := crc;
      RunNothing(mixed);
      for k := 0 to 8
        invariant crc == Shifts(mixed, k)
      {
        ShiftsEnd(mixed, k);
        crc := Shift(crc);
      }
    }
    assert data[..|data|] == data;
    return Xor(crc, 0xFFFF_FFFF);
  }
}
