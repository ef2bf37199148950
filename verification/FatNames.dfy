/** 8.3 names and directory entries as the composer writes them. */
module FatNames {
  import opened Bytes
  import opened FatVolume

  const DOT: byte := 0x2E
  const SPACE: byte := 0x20

  function Upper(b: byte): (r: byte) {
    if 0x61 <= b <= 0x7A then b - 0x20 else b
  }

  function UpperAll(s: seq<byte>): (r: seq<byte>)
    ensures |r| == |s| && forall i :: 0 <= i < |s| ==> r[i] == Upper(s[i])
  {
    seq(|s|, i requires 0 <= i < |s| => Upper(s[i]))
  }

  predicate AlphaNumeric(b: byte) {
    0x41 <= b <= 0x5A || 0x30 <= b <= 0x39
  }

  /** Punctuation the boot-time reader accepts: _ - $ ~ ! # % & ' ( ) @ ^ */
  predicate ReaderPunctuation(b: byte) {
    b in [0x5F, 0x2D, 0x24, 0x7E, 0x21, 0x23, 0x25, 0x26, 0x27, 0x28, 0x29, 0x40, 0x5E]
  }

  /** The composer also accepts a back quote and both braces. */
  predicate ComposerOnly(b: byte) {
    b == 0x60 || b == 0x7B || b == 0x7D
  }

  predicate ReaderByte(b: byte) {
    AlphaNumeric(b) || ReaderPunctuation(b)
  }

  predicate ComposerByte(b: byte) {
    ReaderByte(b) || ComposerOnly(b)
  }

  /** Index of the first dot, or the length. */
  function DotIndex(s: seq<byte>): (d: nat)
    ensures d <= |s|
    ensures d < |s| ==> s[d] == DOT
    ensures forall i :: 0 <= i < d ==> s[i] != DOT
  {
    if s == [] || s[0] == DOT then 0 else 1 + DotIndex(s[1..])
  }

  function Stem(s: seq<byte>): seq<byte> { s[..DotIndex(s)] }

  function Extension(s: seq<byte>): seq<byte> {
    if DotIndex(s) < |s| then s[DotIndex(s) + 1..] else []
  }

  function Pad(s: seq<byte>, n: nat): (r: seq<byte>)
    requires |s| <= n
    ensures |r| == n
  {
    s + seq(n - |s|, _ => SPACE)
  }

  predicate AllComposerBytes(s: seq<byte>) {
    forall i :: 0 <= i < |s| ==> ComposerByte(Upper(s[i]))
  }

  /** What the composer accepts of an ASCII component. */
  predicate ComposerAccepts(component: seq<byte>) {
    && component != [] && component != [DOT] && component != [DOT, DOT]
    && 0x2F !in component && 0x5C !in component && DOT !in Extension(component)
    && 1 <= |Stem(component)| <= 8 && |Extension(component)| <= 3
    && AllComposerBytes(Stem(component)) && AllComposerBytes(Extension(component))
  }

  /** The on-disk form of an accepted component: upper case, both halves padded with spaces. */
  function ShortName(component: seq<byte>): (r: Option<seq<byte>>)
    ensures r.Some? ==> PlainName(r.value)
  {
    if !ComposerAccepts(component) then None
    else Some(Pad(UpperAll(Stem(component)), 8) + Pad(UpperAll(Extension(component)), 3))
  }

  // ---- Entries

  const ATTRIBUTE_DIRECTORY: byte := 0x10
  const ATTRIBUTE_ARCHIVE: byte := 0x20

  /** 2026-06-16 as a FAT date. */
  const FAT_DATE: nat := 0x5CD0

  function MakeEntry(name: seq<byte>, attributes: byte, cluster: nat, size: nat): (r: Option<slot>)
    requires cluster < ENTRY_SPAN
  {
    if |name| != 11 || cluster < 2 || size > U32_MAX then None
    else
      Widths();
      Some(name + [attributes] + Zeros(4) + ToLe(FAT_DATE, 2) + ToLe(FAT_DATE, 2)
           + ToLe(cluster / 0x1_0000, 2) + Zeros(2) + ToLe(FAT_DATE, 2)
           + ToLe(cluster % 0x1_0000, 2) + ToLe(size, 4))
  }

  /** Decoding an entry gives back what it was made from. */
  lemma MadeEntry(name: seq<byte>, attributes: byte, cluster: nat, size: nat)
    requires 2 <= cluster < ENTRY_SPAN && |name| == 11 && size <= U32_MAX
    ensures var e := MakeEntry(name, attributes, cluster, size);
      && e.Some? && Name(e.value) == name && Attributes(e.value) == attributes
      && FirstCluster(e.value) == cluster && FileSize(e.value) == size
  {
    Widths();
    var e := MakeEntry(name, attributes, cluster, size).value;
    assert e[20..22] == ToLe(cluster / 0x1_0000, 2);
    assert e[26..28] == ToLe(cluster % 0x1_0000, 2);
    assert e[28..32] == ToLe(size, 4);
    LeOfToLe(cluster / 0x1_0000, 2);
    LeOfToLe(cluster % 0x1_0000, 2);
    LeOfToLe(size, 4);
  }
}
