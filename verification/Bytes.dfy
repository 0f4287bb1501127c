/** Bytes, and the little-endian integers that the C structures hold in memory. */
module Bytes {
  type byte = x: int | 0 <= x < 256

  const TWO_TO_THE_32: int := 0x1_0000_0000
  const TWO_TO_THE_64: int := 0x1_0000_0000_0000_0000

  type uint32 = x: int | 0 <= x < TWO_TO_THE_32
  type uint64 = x: int | 0 <= x < TWO_TO_THE_64

  function Zeros(n: nat): (s: seq<byte>)
    ensures |s| == n
    ensures forall i :: 0 <= i < n ==> s[i] == 0
  {
    seq(n, _ => 0)
  }

  function Le32(n: uint32): (s: seq<byte>)
    ensures |s| == 4
  {
    [n % 256, n / 256 % 256, n / 256 / 256 % 256, n / 256 / 256 / 256]
  }

  function Get32(s: seq<byte>, i: nat): (n: uint32)
    requires i + 4 <= |s|
  {
    (s[i] as int) + 256 * (s[i + 1] as int) + 65536 * (s[i + 2] as int) + 16777216 * (s[i + 3] as int)
  }

  /** The number whose `k` bytes stand at `i`, the lowest first. */
  function LittleEndian(s: seq<byte>, i: nat, k: nat): nat
    requires i + k <= |s|
    decreases k
  {
    if k == 0 then 0 else s[i] + 0x100 * LittleEndian(s, i + 1, k - 1)
  }

  lemma FourBytes(s: seq<byte>, i: nat)
    requires i + 4 <= |s|
    ensures LittleEndian(s, i, 4) == Get32(s, i)
  {
    assert LittleEndian(s, i + 3, 1) == s[i + 3];
    assert LittleEndian(s, i + 2, 2) == s[i + 2] + 0x100 * LittleEndian(s, i + 3, 1);
    assert LittleEndian(s, i + 1, 3) == s[i + 1] + 0x100 * LittleEndian(s, i + 2, 2);
  }

  lemma Le32RoundTrip(n: uint32)
    ensures Get32(Le32(n), 0) == n
  {
    var q := n / 256;
    var r := q / 256;
    assert n == 256 * q + n % 256 && q == 256 * r + q % 256 && r == 256 * (r / 256) + r % 256;
  }

  lemma Le32At(before: seq<byte>, n: uint32, after: seq<byte>)
    ensures Get32(before + Le32(n) + after, |before|) == n
  {
    var s, i := before + Le32(n) + after, |before|;
    assert s[i] == Le32(n)[0] && s[i + 1] == Le32(n)[1] && s[i + 2] == Le32(n)[2] && s[i + 3] == Le32(n)[3];
    Le32RoundTrip(n);
  }
}
