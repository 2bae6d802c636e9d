/** Octets and the big-endian integers of the binary envelopes. */
module Bytes {

  type byte = b: int | 0 <= b < 256

  // DataView.setUint16(offset, n, false), which writes n modulo 2^16.
  function Be16(n: nat): (s: seq<byte>)
    ensures |s| == 2
  {
    [n / 256 % 256, n % 256]
  }

  // DataView.setUint32(offset, n, false), which writes n modulo 2^32.
  function Be32(n: nat): (s: seq<byte>)
    ensures |s| == 4
  {
    [n / 0x100_0000 % 256, n / 0x1_0000 % 256, n / 256 % 256, n % 256]
  }

  /** The most significant byte comes first. */
  lemma BigEndian(n: nat)
    ensures n < 0x1_0000 ==> (Be16(n)[0] as int) * 256 + Be16(n)[1] == n
    ensures n < 0x1_0000_0000 ==> (Be32(n)[0] as int) * 16777216 + (Be32(n)[1] as int) * 65536 + (Be32(n)[2] as int) * 256 + Be32(n)[3] == n
  {
    assert n < 0x1_0000 ==> n == n / 256 * 256 + n % 256;
    if n < 0x1_0000_0000 {
      SplitJoin(n);
    }
  }

  function Join(a: byte, b: byte, c: byte, d: byte): (n: nat)
    ensures n < 0x1_0000_0000
  {
    (((a as int) * 256 + b) * 256 + c) * 256 + d
  }

  lemma JoinSplit(a: byte, b: byte, c: byte, d: byte)
    ensures var n := Join(a, b, c, d);
            n / 0x100_0000 == a && n / 0x1_0000 % 256 == b && n / 256 % 256 == c && n % 256 == d
  {
    var n := Join(a, b, c, d);
    var ab := (a as int) * 256 + b;
    assert n / 256 == ab * 256 + c && n / 0x1_0000 == ab && n / 0x100_0000 == a;
  }

  lemma SplitJoin(n: nat)
    requires n < 0x1_0000_0000
    ensures Join(n / 0x100_0000, n / 0x1_0000 % 256, n / 256 % 256, n % 256) == n
  {
    var m := n / 256;
    assert n == m * 256 + n % 256;
    var k := m / 256;
    assert m == k * 256 + m % 256 && k == n / 0x1_0000;
    assert k == k / 256 * 256 + k % 256 && k / 256 == n / 0x100_0000;
  }

  // DataView.getUint16(offset, false)
  function U16At(s: seq<byte>, offset: nat): (n: nat)
    requires offset + 2 <= |s|
    ensures n < 0x1_0000
  {
    (s[offset] as int) * 256 + s[offset + 1]
  }

  // DataView.getUint32(offset, false) and u32::from_be_bytes
  function U32At(s: seq<byte>, offset: nat): (n: nat)
    requires offset + 4 <= |s|
    ensures n < 0x1_0000_0000
  {
    Join(s[offset], s[offset + 1], s[offset + 2], s[offset + 3])
  }

  lemma Be16RoundTrip(n: nat, pre: seq<byte>, post: seq<byte>)
    requires n < 0x1_0000
    ensures U16At(pre + Be16(n) + post, |pre|) == n
  {
    var s := pre + Be16(n) + post;
    assert s[|pre|] == Be16(n)[0] && s[|pre| + 1] == Be16(n)[1];
  }

  lemma Be32RoundTrip(n: nat, pre: seq<byte>, post: seq<byte>)
    requires n < 0x1_0000_0000
    ensures U32At(pre + Be32(n) + post, |pre|) == n
  {
    var s := pre + Be32(n) + post;
    assert s[|pre|] == Be32(n)[0] && s[|pre| + 1] == Be32(n)[1];
    assert s[|pre| + 2] == Be32(n)[2] && s[|pre| + 3] == Be32(n)[3];
    SplitJoin(n);
  }

  lemma Be16Inverse(s: seq<byte>, offset: nat)
    requires offset + 2 <= |s|
    ensures Be16(U16At(s, offset)) == s[offset..offset + 2]
  {
  }

  lemma Be32Inverse(s: seq<byte>, offset: nat)
    requires offset + 4 <= |s|
    ensures Be32(U32At(s, offset)) == s[offset..offset + 4]
  {
    JoinSplit(s[offset], s[offset + 1], s[offset + 2], s[offset + 3]);
  }
}
