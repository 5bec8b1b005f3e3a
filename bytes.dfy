/**
 * Machine integers and byte-sequence helpers shared by the decoder, the
 * entity text splitter and the list filters. All multi-byte fields of the
 * map format are little-endian.
 */
module Bytes {
  import opened Wrappers

  type byte = x: int | 0 <= x < 0x100
  type u16 = x: int | 0 <= x < 0x1_0000
  type u32 = x: int | 0 <= x < 0x1_0000_0000

  const U32_LIMIT: int := 0x1_0000_0000

  /** Little-endian u16 stored at byte offset `i`. */
  function LeU16(s: seq<byte>, i: nat): u16
    requires i + 2 <= |s|
  {
    s[i] as int + 0x100 * s[i + 1] as int
  }

  /** Little-endian u32 stored at byte offset `i`. */
  function LeU32(s: seq<byte>, i: nat): u32
    requires i + 4 <= |s|
  {
    s[i] as int + 0x100 * s[i + 1] as int + 0x1_0000 * s[i + 2] as int + 0x100_0000 * s[i + 3] as int
  }

  /** The two little-endian bytes of `x` (Rust's `u16::to_le_bytes`). */
  function U16Bytes(x: u16): (r: seq<byte>)
    ensures |r| == 2 && LeU16(r, 0) == x
  {
    [x % 0x100, x / 0x100]
  }

  /** The four little-endian bytes of `x` (Rust's `u32::to_le_bytes`). */
  function U32Bytes(x: u32): (r: seq<byte>)
    ensures |r| == 4 && LeU32(r, 0) == x
  {
    var y1 := x / 0x100;
    var y2 := y1 / 0x100;
    [x % 0x100, y1 % 0x100, y2 % 0x100, y2 / 0x100]
  }

  /** Reading a u16 and writing it back gives the same two bytes. */
  lemma U16BytesOfLe(s: seq<byte>, i: nat)
    requires i + 2 <= |s|
    ensures U16Bytes(LeU16(s, i)) == s[i..i + 2]
  {
    var x := LeU16(s, i);
    assert x % 0x100 == s[i] && x / 0x100 == s[i + 1];
  }

  /** Reading a u32 and writing it back gives the same four bytes. */
  lemma U32BytesOfLe(s: seq<byte>, i: nat)
    requires i + 4 <= |s|
    ensures U32Bytes(LeU32(s, i)) == s[i..i + 4]
  {
    var x := LeU32(s, i);
    var y1: int := s[i + 1] as int + 0x100 * s[i + 2] as int + 0x1_0000 * s[i + 3] as int;
    var y2: int := s[i + 2] as int + 0x100 * s[i + 3] as int;
    assert x == s[i] as int + 0x100 * y1;
    assert x % 0x100 == s[i] && x / 0x100 == y1;
    assert y1 == s[i + 1] + 0x100 * y2;
    assert y1 % 0x100 == s[i + 1] && y1 / 0x100 == y2;
    assert y2 % 0x100 == s[i + 2] && y2 / 0x100 == s[i + 3];
  }

  /** A sub-range of `h`, found at `pos` in `s`, is the same sub-range of `s` shifted by `pos`. */
  lemma SliceInside(s: seq<byte>, pos: nat, h: seq<byte>, a: nat, b: nat)
    requires pos + |h| <= |s| && s[pos..pos + |h|] == h && a <= b <= |h|
    ensures s[pos + a..pos + b] == h[a..b]
  {
    forall k | 0 <= k < b - a ensures s[pos + a..pos + b][k] == h[a..b][k] {
      assert h[a + k] == s[pos..pos + |h|][a + k];
    }
  }

  /** Equal four-byte windows hold equal little-endian u32s. */
  lemma LeU32Slice(s: seq<byte>, i: nat, w: seq<byte>, j: nat)
    requires i + 4 <= |s| && j + 4 <= |w|
    requires s[i..i + 4] == w[j..j + 4]
    ensures LeU32(s, i) == LeU32(w, j)
  {
    assert s[i] == s[i..i + 4][0] && s[i + 1] == s[i..i + 4][1];
    assert s[i + 2] == s[i..i + 4][2] && s[i + 3] == s[i..i + 4][3];
    assert w[j] == w[j..j + 4][0] && w[j + 1] == w[j..j + 4][1];
    assert w[j + 2] == w[j..j + 4][2] && w[j + 3] == w[j..j + 4][3];
  }

  /** Equal two-byte windows hold equal little-endian u16s. */
  lemma LeU16Slice(s: seq<byte>, i: nat, w: seq<byte>, j: nat)
    requires i + 2 <= |s| && j + 2 <= |w|
    requires s[i..i + 2] == w[j..j + 2]
    ensures LeU16(s, i) == LeU16(w, j)
  {
    assert s[i] == s[i..i + 2][0] && s[i + 1] == s[i..i + 2][1];
    assert w[j] == w[j..j + 2][0] && w[j + 1] == w[j..j + 2][1];
  }

  predicate StartsWith(s: seq<byte>, prefix: seq<byte>) {
    |prefix| <= |s| && s[..|prefix|] == prefix
  }

  predicate EndsWith(s: seq<byte>, suffix: seq<byte>) {
    |suffix| <= |s| && s[|s| - |suffix|..] == suffix
  }

  /** `needle` occurs in `hay` starting at byte `i`. */
  predicate OccursAt(hay: seq<byte>, needle: seq<byte>, i: nat) {
    i + |needle| <= |hay| && hay[i..i + |needle|] == needle
  }

  /** The first index at which `needle` occurs in `hay` (Rust's `str::find`, on bytes). */
  function Find(hay: seq<byte>, needle: seq<byte>): (r: Option<nat>)
    ensures r.Some? ==> OccursAt(hay, needle, r.value)
    ensures r.Some? ==> forall j: nat :: j < r.value ==> !OccursAt(hay, needle, j)
    ensures r.None? ==> forall j: nat :: !OccursAt(hay, needle, j)
    decreases |hay|
  {
    if |hay| < |needle| then None
    else if hay[..|needle|] == needle then Some(0)
    else
      var rest := Find(hay[1..], needle);
      ShiftOccurs(hay, needle);
      assert !OccursAt(hay, needle, 0);
      match rest
      case None => None
      case Some(k) => Some(k + 1)
  }

  /** An occurrence one byte further in `hay` is an occurrence in `hay[1..]`. */
  lemma ShiftOccurs(hay: seq<byte>, needle: seq<byte>)
    requires |hay| > 0
    ensures forall j: nat :: 1 <= j ==> (OccursAt(hay, needle, j) <==> OccursAt(hay[1..], needle, j - 1))
  {
    forall j: nat | 1 <= j ensures OccursAt(hay, needle, j) <==> OccursAt(hay[1..], needle, j - 1) {
      if j + |needle| <= |hay| {
        assert hay[1..][j - 1..j - 1 + |needle|] == hay[j..j + |needle|];
      }
    }
  }
}
