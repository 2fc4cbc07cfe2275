/** Bytes and the little-endian words of the wire structures. */
module Bytes {

  type byte = x: int | 0 <= x < 256

  function Min(a: int, b: int): int { if a < b then a else b }

  /** A uint32_t as it lies in memory on both ends of a little-endian link. */
  function Le32(v: int): (s: seq<byte>)
    requires 0 <= v < 0x1_0000_0000
    ensures |s| == 4
  {
    [v % 0x100, v / 0x100 % 0x100, v / 0x1_0000 % 0x100, v / 0x100_0000]
  }

  function LoadLe32(s: seq<byte>, i: nat): (v: int)
    requires i + 4 <= |s|
    ensures 0 <= v < 0x1_0000_0000
  {
    var b0: int, b1: int, b2: int, b3: int := s[i], s[i + 1], s[i + 2], s[i + 3];
    b0 + 0x100 * b1 + 0x1_0000 * b2 + 0x100_0000 * b3
  }

  lemma LoadStored(before: seq<byte>, v: int, after: seq<byte>)
    requires 0 <= v < 0x1_0000_0000
    ensures LoadLe32(before + Le32(v) + after, |before|) == v
  {
    var s, b := before + Le32(v) + after, |before|;
    assert s[b] == Le32(v)[0] && s[b + 1] == Le32(v)[1] && s[b + 2] == Le32(v)[2] && s[b + 3] == Le32(v)[3];
    assert v / 0x100 == v / 0x1_0000 * 0x100 + v / 0x100 % 0x100;
    assert v / 0x1_0000 == v / 0x100_0000 * 0x100 + v / 0x1_0000 % 0x100;
  }

  lemma StoredLoad(s: seq<byte>)
    requires |s| == 4
    ensures Le32(LoadLe32(s, 0)) == s
  {
    var b0: int, b1: int, b2: int, b3: int := s[0], s[1], s[2], s[3];
    var v := LoadLe32(s, 0);
    assert v / 0x100 == b1 + 0x100 * b2 + 0x1_0000 * b3;
    assert v / 0x1_0000 == b2 + 0x100 * b3;
    assert v / 0x100_0000 == b3;
  }
}
