/** The traffic indication map: `rtw_set_tim_ie` compresses the AP's bitmap into a TIM element;
    a station decodes the element by section 9.4.2.6 of IEEE 802.11-2016. */
module Tim {
  import opened Bytes
  import opened Elements

  const DTIM_HEAD: nat := 3  // count, period and bitmap control

  ghost predicate AllZero(bmp: seq<byte>, lo: nat, hi: nat)
    requires lo <= hi <= |bmp|
  {
    forall i | lo <= i < hi :: bmp[i] == 0
  }

  /** `n1` and `n2` delimit the part of the bitmap that is sent: `n1` is even, nothing is set
      before `n1` nor behind `n2`, and the part is as short as the encoding allows. */
  ghost predicate Bounds(bmp: seq<byte>, n1: nat, n2: nat) {
    && n1 % 2 == 0 && n1 <= n2 < |bmp|
    && AllZero(bmp, 0, n1)
    && AllZero(bmp, n2 + 1, |bmp|)
    && (if AllZero(bmp, 0, |bmp|) then n1 == n2 == 0
        else (bmp[n1] != 0 || (n1 < n2 && bmp[n1 + 1] != 0)) && (n2 > 0 ==> bmp[n2] != 0))
  }

  lemma BoundsUnique(bmp: seq<byte>, n1: nat, n2: nat, m1: nat, m2: nat)
    requires |bmp| > 0 && Bounds(bmp, n1, n2) && Bounds(bmp, m1, m2)
    ensures n1 == m1 && n2 == m2
  {
  }

  /** `rtw_bmp_not_empty`. */
  method NotEmpty(bmp: seq<byte>) returns (any: bool)
    ensures any <==> !AllZero(bmp, 0, |bmp|)
  {
    for i := 0 to |bmp|
      invariant AllZero(bmp, 0, i)
    {
      if bmp[i] != 0 {
        return true;
      }
    }
    return false;
  }

  /** The two scans of `rtw_set_tim_ie`. */
  method FindBounds(bmp: seq<byte>) returns (n1: nat, n2: nat)
    requires 0 < |bmp| < 256
    ensures Bounds(bmp, n1, n2)
  {
    n1, n2 := 0, 0;
    var any := NotEmpty(bmp);
    if any {
      var i := 0;
      while i < |bmp| && bmp[i] == 0
        invariant i <= |bmp| && AllZero(bmp, 0, i)
      {
        i := i + 1;
      }
      n1 := i - i % 2;
      var first := i;
      i := |bmp| - 1;
      while i > 0 && bmp[i] == 0
        invariant first <= i < |bmp| && AllZero(bmp, i + 1, |bmp|)
      {
        i := i - 1;
      }
      n2 := i;
    }
  }

  /** The element the bounds stand for; octets written by C assignments are taken modulo 256. */
  function TimOctets(count: byte, period: byte, bmp: seq<byte>, n1: nat, n2: nat): (s: seq<byte>)
    requires n1 <= n2 < |bmp| < 256 && n1 % 2 == 0
    ensures |s| == 5 + (n2 - n1 + 1)
  {
    [TIM, (DTIM_HEAD + (n2 - n1 + 1)) % 256, count, period, (if Bit(bmp[0], 0) then 1 else 0) + n1] +
    bmp[n1..n2 + 1]
  }

  /** `rtw_set_tim_ie`: writes the element at `at` and returns its length as a `u8`. */
  method SetTimIe(count: byte, period: byte, bmp: seq<byte>, buf: array<byte>, at: nat)
    returns (ret: byte, ghost n1: nat, ghost n2: nat)
    requires 0 < |bmp| < 256
    requires at + 5 + |bmp| <= buf.Length
    modifies buf
    ensures Bounds(bmp, n1, n2)
    ensures var s := TimOctets(count, period, bmp, n1, n2);
            && buf[..] == old(buf[..at]) + s + old(buf[at + |s|..])
            && ret == |s| % 256
  {
    var lo, hi := FindBounds(bmp);
    n1, n2 := lo, hi;
    var len := hi - lo + 1;
    assert Pow2(0) == 1;
    var head: seq<byte> := [TIM, (DTIM_HEAD + len) % 256, count, period, bmp[0] % 2 + lo];
    Store(buf, at, head + bmp[lo..hi + 1]);
    assert head + bmp[lo..hi + 1] == TimOctets(count, period, bmp, n1, n2);
    ret := (5 + len) % 256;
  }

  // ------------------------------------------------------------ the station's view

  /** The virtual bitmap a station reads out of an element: bit `aid`, where the octets left out
      count as zero and the group bit stands for AID 0. */
  predicate Indicated(s: seq<byte>, aid: nat)
    requires |s| >= 6
  {
    var len: int, ctrl: int := s[1], s[4];
    var n1, octet := ctrl - ctrl % 2, aid / 8;
    var n2 := n1 + (len - DTIM_HEAD) - 1;
    if aid == 0 then ctrl % 2 == 1
    else n1 <= octet <= n2 && 5 + octet - n1 < |s| && Bit(s[5 + octet - n1], aid % 8)
  }

  /** The bit in the AP's own bitmap. */
  predicate IsSet(bmp: seq<byte>, aid: nat) {
    aid / 8 < |bmp| && Bit(bmp[aid / 8], aid % 8)
  }

  lemma ZeroHasNoBits(j: nat)
    ensures !Bit(0, j)
  {
    assert 0 / Pow2(j) == 0;
  }

  /** Every station reads its own bit, as long as the length octet did not wrap. */
  lemma TimIsLossless(count: byte, period: byte, bmp: seq<byte>, n1: nat, n2: nat, aid: nat)
    requires 0 < |bmp| < 256 && Bounds(bmp, n1, n2)
    requires n2 - n1 + 1 <= 252
    ensures var s := TimOctets(count, period, bmp, n1, n2);
            && s[0] == TIM && s[1] == |s| - 2 && s[2] == count && s[3] == period
            && (Indicated(s, aid) <==> IsSet(bmp, aid))
  {
    var s := TimOctets(count, period, bmp, n1, n2);
    var ctrl: int := s[4];
    assert Pow2(0) == 1;
    assert ctrl - ctrl % 2 == n1;
    if aid != 0 && aid / 8 < |bmp| && !(n1 <= aid / 8 <= n2) {
      assert bmp[aid / 8] == 0;
      ZeroHasNoBits(aid % 8);
    }
  }

  /** When the length octet wraps some station loses its bit, so 252 is the exact limit. */
  lemma LosslessOnlyUpTo252(count: byte, period: byte, bmp: seq<byte>, n1: nat, n2: nat)
    requires 0 < |bmp| < 256 && Bounds(bmp, n1, n2)
    requires n2 - n1 + 1 > 252
    ensures exists aid: nat ::
              !(Indicated(TimOctets(count, period, bmp, n1, n2), aid) <==> IsSet(bmp, aid))
  {
    var j := SomeBit(bmp[n2]);
    var aid := 8 * n2 + j;
    assert aid / 8 == n2 && aid % 8 == j;
    assert IsSet(bmp, aid);
    assert !Indicated(TimOctets(count, period, bmp, n1, n2), aid);
  }

  lemma SomeBit(x: byte) returns (j: nat)
    requires x != 0
    ensures j < 8 && Bit(x, j)
  {
    assert Pow2(0) == 1 && Pow2(1) == 2 && Pow2(2) == 4 && Pow2(3) == 8;
    assert Pow2(4) == 16 && Pow2(5) == 32 && Pow2(6) == 64 && Pow2(7) == 128;
    j := if x >= 128 then 7 else if x >= 64 then 6 else if x >= 32 then 5 else if x >= 16 then 4
         else if x >= 8 then 3 else if x >= 4 then 2 else if x >= 2 then 1 else 0;
  }

  /** The returned length is the number of octets written exactly up to a part of 250 octets; a
      full bitmap of 251 octets is reported as length 0. */
  lemma ReturnedLength(count: byte, period: byte, bmp: seq<byte>, n1: nat, n2: nat)
    requires 0 < |bmp| <= 251 && Bounds(bmp, n1, n2)
    ensures var s := TimOctets(count, period, bmp, n1, n2);
            && (|s| % 256 == |s| <==> n2 - n1 + 1 <= 250)
            && (n2 - n1 + 1 > 250 <==>
                  |bmp| == 251 && (bmp[0] != 0 || bmp[1] != 0) && bmp[250] != 0)
            && (n2 - n1 + 1 > 250 ==> |s| % 256 == 0)
  {
    if |bmp| == 251 {
      if n1 > 0 {
        assert bmp[0] == 0 && bmp[1] == 0;
      }
      if n2 < 250 {
        assert bmp[250] == 0;
      }
    }
  }
}
