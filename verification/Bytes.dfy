/** Octets, and the copies between buffers that the driver makes. */
module Bytes {

  type byte = x: int | 0 <= x < 256

  function Pow2(j: nat): (p: nat)
    ensures p > 0
  {
    if j == 0 then 1 else 2 * Pow2(j - 1)
  }

  /** Bit `j` of an octet, bit 0 being the least significant. */
  predicate Bit(x: byte, j: nat) { (x / Pow2(j)) % 2 == 1 }

  /** `memcpy` of a value into a buffer. */
  method Store(buf: array<byte>, at: nat, s: seq<byte>)
    requires at + |s| <= buf.Length
    modifies buf
    ensures buf[..] == old(buf[..at]) + s + old(buf[at + |s|..])
  {
    for i := 0 to |s|
      invariant buf[..at + i] == old(buf[..at]) + s[..i]
      invariant buf[at + i..] == old(buf[at + i..])
    {
      buf[at + i] := s[i];
      assert buf[..at + i + 1] == buf[..at + i] + [s[i]];
      assert s[..i + 1] == s[..i] + [s[i]];
    }
    assert s[..|s|] == s;
    assert buf[..] == buf[..at + |s|] + buf[at + |s|..];
  }

  lemma SliceOfSlice(s: seq<byte>, lo: nat, hi: nat, a: nat, b: nat)
    requires lo <= hi <= |s| && a <= b <= hi - lo
    ensures s[lo..hi][a..b] == s[lo + a..lo + b]
  {
    var x, y := s[lo..hi][a..b], s[lo + a..lo + b];
    assert forall i | 0 <= i < |x| :: x[i] == y[i];
  }
}
