/** Setting the broadcast flag of a DHCP request and patching the UDP checksum. Words are 16-bit
    values as the host reads them; the Internet checksum does not depend on the byte order. */
module DhcpChecksum {

  type word = x: int | 0 <= x < 65536

  datatype Host = BigEndian | LittleEndian

  function Swap(v: word): word { v % 256 * 256 + v / 256 }

  function Htons(h: Host, v: word): word { if h == BigEndian then v else Swap(v) }

  // Word offsets in a UDP datagram that holds a DHCP message.
  const SOURCE: nat := 0
  const DEST: nat := 1
  const CHECK: nat := 3
  const FLAGS: nat := 9
  const COOKIE: nat := 122

  const ETH_P_IP: word := 0x0800
  const IPPROTO_UDP: nat := 17
  const CLIENT_PORT: word := 68
  const SERVER_PORT: word := 67
  const MAGIC_HIGH: word := 0x6382
  const MAGIC_LOW: word := 0x5363
  const BROADCAST: word := 0x8000

  // ------------------------------------------------------------ one's-complement sums

  function Sum(ws: seq<word>): nat {
    if ws == [] then 0 else ws[0] + Sum(ws[1..])
  }

  lemma {:induction false} SumUpdate(ws: seq<word>, i: nat, v: word)
    requires i < |ws|
    ensures Sum(ws[i := v]) + ws[i] == Sum(ws) + v
  {
    if i == 0 {
      assert ws[0 := v][1..] == ws[1..];
    } else {
      SumUpdate(ws[1..], i - 1, v);
      assert ws[i := v][1..] == ws[1..][i - 1 := v];
    }
  }

  function Swapped(ws: seq<word>): (r: seq<word>)
    ensures |r| == |ws| && forall i | 0 <= i < |ws| :: r[i] == Swap(ws[i])
  {
    if ws == [] then [] else [Swap(ws[0])] + Swapped(ws[1..])
  }

  /** Swapping the octets of every word multiplies the sum by 256, modulo 65535. */
  lemma {:induction false} SumSwapped(ws: seq<word>) returns (k: int)
    ensures 256 * Sum(ws) == Sum(Swapped(ws)) + 65535 * k
  {
    if ws == [] {
      k := 0;
    } else {
      k := SumSwapped(ws[1..]);
      var w: int := ws[0];
      assert 256 * w == Swap(ws[0]) + 65535 * (w / 256);
      assert Swapped(ws)[1..] == Swapped(ws[1..]);
      k := k + w / 256;
    }
  }

  /** A receiver accepts a datagram without a checksum, or with one that makes the one's-complement
      sum over pseudo-header and datagram zero (RFC 768). */
  predicate Accepted(pseudo: nat, ws: seq<word>)
    requires |ws| > CHECK
  {
    ws[CHECK] == 0 || (pseudo + Sum(ws)) % 65535 == 0
  }

  /** Acceptance does not depend on the byte order the words are read in. */
  lemma AcceptedInAnyOrder(pseudo: nat, ws: seq<word>)
    requires |ws| > CHECK
    ensures Accepted(pseudo, ws) == Accepted(256 * pseudo, Swapped(ws))
  {
    hide Sum, Swapped, Swap;
    var k := SumSwapped(ws);
    TimesUnit(pseudo + Sum(ws), 256 * pseudo + Sum(Swapped(ws)), k);
    SwapIsZero(ws[CHECK]);
  }

  lemma SwapIsZero(v: word)
    ensures Swap(v) == 0 <==> v == 0
  {
  }

  lemma TimesUnit(x: nat, y: nat, k: int)
    requires 256 * x == y + 65535 * k
    ensures x % 65535 == 0 <==> y % 65535 == 0
  {
    if x % 65535 == 0 {
      assert y == 65535 * (256 * (x / 65535) - k);
    }
    if y % 65535 == 0 {
      assert x == 65535 * (256 * (y / 65535 + k) - x);
    }
  }

  /** Folding the carries of a sum, by definition: the representative in 1..65535, and 0 for 0. */
  function Folded(x: nat): (r: word)
    ensures r % 65535 == x % 65535
    ensures r == 0 <==> x == 0
  {
    if x == 0 then 0 else 1 + (x - 1) % 65535
  }

  /** What the driver folds: the complement of the checksum plus the new flags. */
  function Patch(check: word, flags: word): nat {
    var c: int, f: int := check, flags;
    65535 - c + f
  }

  /** The loop that folds the carries ends, and folds them. */
  method Fold(x: nat) returns (sum: word)
    ensures sum == Folded(x)
  {
    var s := x;
    while s / 65536 > 0
      invariant s >= 0 && Folded(s) == Folded(x)
      decreases s
    {
      assert s == 65536 * (s / 65536) + s % 65536;
      FoldStep(s);
      s := s % 65536 + s / 65536;
    }
    sum := s;
  }

  lemma FoldStep(s: nat)
    requires s >= 65536
    ensures Folded(s % 65536 + s / 65536) == Folded(s)
  {
    var q := s / 65536;
    assert s == (s % 65536 + q) + 65535 * q;
    assert (s - 1) == (s % 65536 + q - 1) + 65535 * q;
  }

  // ------------------------------------------------------------ the flag

  predicate DhcpRequest(h: Host, ws: seq<word>)
    requires |ws| > COOKIE + 1
  {
    && ws[SOURCE] == Htons(h, CLIENT_PORT)
    && ws[DEST] == Htons(h, SERVER_PORT)
    && ws[COOKIE] == Htons(h, MAGIC_HIGH)
    && ws[COOKIE + 1] == Htons(h, MAGIC_LOW)
  }

  predicate Unicast(h: Host, flags: word) { flags / Htons(h, BROADCAST) % 2 == 0 }

  function WithBroadcast(h: Host, flags: word): word
    requires Unicast(h, flags)
  {
    flags + Htons(h, BROADCAST)
  }

  /** The datagram with the flag set and the checksum patched as the driver patches it. */
  function Flagged(h: Host, ws: seq<word>): (r: seq<word>)
    requires |ws| > COOKIE + 1
    ensures |r| == |ws|
  {
    if DhcpRequest(h, ws) && Unicast(h, ws[FLAGS]) then
      var flags := WithBroadcast(h, ws[FLAGS]);
      ws[FLAGS := flags][CHECK := 65535 - Folded(Patch(ws[CHECK], flags))]
    else ws
  }

  // ------------------------------------------------------------ on the wire

  /** The first and the second octet of a word in memory. */
  function FirstOctet(h: Host, w: word): nat { if h == BigEndian then w / 256 else w % 256 }

  function SecondOctet(h: Host, w: word): nat { if h == BigEndian then w % 256 else w / 256 }

  /** Octet `o` of a datagram. */
  function OctetAt(h: Host, ws: seq<word>, o: nat): nat
    requires o / 2 < |ws|
  {
    if o % 2 == 0 then FirstOctet(h, ws[o / 2]) else SecondOctet(h, ws[o / 2])
  }

  /** The octets of a datagram from a DHCP client to a server that asks for a unicast answer: the two ports,
      the magic cookie, and the first bit of the flags. */
  predicate AsksForUnicast(h: Host, ws: seq<word>)
    requires |ws| >= 124
  {
    && OctetAt(h, ws, 0) == 0 && OctetAt(h, ws, 1) == 68
    && OctetAt(h, ws, 2) == 0 && OctetAt(h, ws, 3) == 67
    && OctetAt(h, ws, 244) == 0x63 && OctetAt(h, ws, 245) == 0x82
    && OctetAt(h, ws, 246) == 0x53 && OctetAt(h, ws, 247) == 0x63
    && OctetAt(h, ws, 18) < 128
  }

  lemma InNetworkOrder(h: Host, w: word, v: word)
    ensures w == Htons(h, v) <==> FirstOctet(h, w) == v / 256 && SecondOctet(h, w) == v % 256
  {
  }

  /** The first bit of the flags, on a host of either byte order. */
  lemma FlagBit(h: Host, w: word)
    ensures Unicast(h, w) <==> FirstOctet(h, w) < 128
    ensures Unicast(h, w) ==>
              && FirstOctet(h, WithBroadcast(h, w)) == FirstOctet(h, w) + 128
              && SecondOctet(h, WithBroadcast(h, w)) == SecondOctet(h, w)
  {
    var x: int := w;
    if h == BigEndian {
      HighBit(x);
    } else {
      LowBit(x);
      assert Htons(h, BROADCAST) == 128;
    }
  }

  lemma HighBit(x: int)
    requires 0 <= x < 65536
    ensures x / 32768 % 2 == 0 <==> x / 256 < 128
    ensures x / 256 < 128 ==> (x + 32768) / 256 == x / 256 + 128 && (x + 32768) % 256 == x % 256
  {
  }

  lemma LowBit(x: int)
    requires 0 <= x < 65536
    ensures x / 128 % 2 == 0 <==> x % 256 < 128
    ensures x % 256 < 128 ==> (x + 128) / 256 == x / 256 && (x + 128) % 256 == x % 256 + 128
  {
    assert x == 256 * (x / 256) + x % 256;
    assert x / 128 == 2 * (x / 256) + x % 256 / 128;
  }

  /** Exactly such a datagram is changed, and then in its checksum and in the first bit of the flags, whatever
      the byte order of the host. */
  lemma FlaggedOnTheWire(h: Host, ws: seq<word>, o: nat)
    requires |ws| >= 124 && o / 2 < |ws|
    ensures !AsksForUnicast(h, ws) ==> Flagged(h, ws) == ws
    ensures AsksForUnicast(h, ws) ==>
              && OctetAt(h, Flagged(h, ws), 18) == OctetAt(h, ws, 18) + 128
              && (o != 6 && o != 7 && o != 18 ==> OctetAt(h, Flagged(h, ws), o) == OctetAt(h, ws, o))
  {
    hide Htons, Unicast, WithBroadcast, FirstOctet, SecondOctet;
    InNetworkOrder(h, ws[0], CLIENT_PORT);
    InNetworkOrder(h, ws[1], SERVER_PORT);
    InNetworkOrder(h, ws[122], MAGIC_HIGH);
    InNetworkOrder(h, ws[123], MAGIC_LOW);
    FlagBit(h, ws[9]);
  }

  /** The frame is an IP frame with a UDP datagram, and the feature is not switched off. */
  predicate Concerned(h: Host, disabled: bool, etherType: word, protocol: nat) {
    !disabled && etherType == Htons(h, ETH_P_IP) && protocol == IPPROTO_UDP
  }

  /** The handler, on the datagram in place. */
  method FlagBroadcast(h: Host, disabled: bool, etherType: word, protocol: nat, udp: array<word>)
    requires Concerned(h, disabled, etherType, protocol) ==> udp.Length > COOKIE + 1
    modifies udp
    ensures Concerned(h, disabled, etherType, protocol) <==>
              !disabled && FirstOctet(h, etherType) == 0x08 && SecondOctet(h, etherType) == 0x00 && protocol == 17
    ensures udp[..] == if Concerned(h, disabled, etherType, protocol) then Flagged(h, old(udp[..])) else old(udp[..])
  {
    InNetworkOrder(h, etherType, ETH_P_IP);
    if disabled {
      return;
    }
    if etherType != Htons(h, ETH_P_IP) {
      return;
    }
    if protocol != IPPROTO_UDP {
      return;
    }
    ghost var ws := udp[..];
    if udp[SOURCE] == Htons(h, CLIENT_PORT) && udp[DEST] == Htons(h, SERVER_PORT) {
      if udp[COOKIE] == Htons(h, MAGIC_HIGH) && udp[COOKIE + 1] == Htons(h, MAGIC_LOW) {
        if Unicast(h, udp[FLAGS]) {
          udp[FLAGS] := WithBroadcast(h, udp[FLAGS]);
          var sum := Fold(Patch(udp[CHECK], udp[FLAGS]));
          udp[CHECK] := 65535 - sum;
        }
      }
    }
  }

  /** The patch adds the whole new flags word, not the difference. So a request with a valid checksum
      stays acceptable if and only if its old flags were 0, or the checksum equals the new flags (then
      the patched checksum is 0, which reads as absent). */
  lemma ChecksumSurvivesIff(h: Host, pseudo: nat, ws: seq<word>)
    requires |ws| > COOKIE + 1 && DhcpRequest(h, ws) && Unicast(h, ws[FLAGS])
    requires ws[CHECK] != 0 && Accepted(pseudo, ws)
    ensures Accepted(pseudo, Flagged(h, ws))
            <==> ws[FLAGS] == 0 || ws[CHECK] == WithBroadcast(h, ws[FLAGS])
  {
    NotAllOnes(h, ws[FLAGS]);
    var flags := WithBroadcast(h, ws[FLAGS]);
    var folded := Folded(Patch(ws[CHECK], flags));
    SumAfter(h, ws);
    assert folded == 65535 <==> ws[CHECK] == flags;
    SumModulo(pseudo + Sum(ws), ws[FLAGS], ws[CHECK], flags, folded);
  }

  function SampleWord(h: Host, i: nat): word {
    if i == SOURCE then Htons(h, CLIENT_PORT)
    else if i == DEST then Htons(h, SERVER_PORT)
    else if i == CHECK then 2
    else if i == FLAGS then 1
    else if i == COOKIE then Htons(h, MAGIC_HIGH)
    else if i == COOKIE + 1 then Htons(h, MAGIC_LOW)
    else 0
  }

  /** A request with one other flag bit set, and a valid checksum that the patch makes wrong. */
  lemma OtherFlagsBreakChecksum(h: Host) returns (pseudo: nat, ws: seq<word>)
    ensures |ws| > COOKIE + 1 && DhcpRequest(h, ws) && Unicast(h, ws[FLAGS])
    ensures ws[FLAGS] != 0 && ws[CHECK] != 0 && Accepted(pseudo, ws)
    ensures !Accepted(pseudo, Flagged(h, ws))
  {
    ws := seq(COOKIE + 2, i requires 0 <= i < COOKIE + 2 => SampleWord(h, i));
    pseudo := 65534 * Sum(ws);
    assert pseudo + Sum(ws) == 65535 * Sum(ws);
    ChecksumSurvivesIff(h, pseudo, ws);
  }

  /** A request without a checksum gets one, and it is right only by accident: when the rest of the
      datagram already sums to zero, or the new flags are all ones. */
  lemma AbsentChecksumIff(h: Host, pseudo: nat, ws: seq<word>)
    requires |ws| > COOKIE + 1 && DhcpRequest(h, ws) && Unicast(h, ws[FLAGS])
    requires ws[CHECK] == 0
    ensures Accepted(pseudo, Flagged(h, ws))
            <==> (pseudo + Sum(ws) - ws[FLAGS]) % 65535 == 0 || WithBroadcast(h, ws[FLAGS]) == 65535
  {
    var flags := WithBroadcast(h, ws[FLAGS]);
    FoldedComplement(flags);
    assert Flagged(h, ws)[CHECK] == 65535 - flags;
    SumAfter(h, ws);
    var rest := pseudo + Sum(ws) - ws[FLAGS];
    assert pseudo + Sum(Flagged(h, ws)) == rest + 65535;
    PlusModulus(rest);
  }

  lemma PlusModulus(x: int)
    ensures (x + 65535) % 65535 == x % 65535
  {
  }

  lemma FoldedComplement(flags: word)
    requires flags > 0
    ensures Folded(Patch(0, flags)) == flags
  {
  }

  /** Nothing but the flags and the checksum changes. */
  lemma SumAfter(h: Host, ws: seq<word>)
    requires |ws| > COOKIE + 1 && DhcpRequest(h, ws) && Unicast(h, ws[FLAGS])
    ensures var flags := WithBroadcast(h, ws[FLAGS]);
            Sum(Flagged(h, ws)) + ws[FLAGS] + ws[CHECK]
            == Sum(ws) + flags + 65535 - Folded(Patch(ws[CHECK], flags))
  {
    var flags := WithBroadcast(h, ws[FLAGS]);
    SumUpdate(ws, FLAGS, flags);
    SumUpdate(ws[FLAGS := flags], CHECK, 65535 - Folded(Patch(ws[CHECK], flags)));
  }

  lemma NotAllOnes(h: Host, flags: word)
    requires Unicast(h, flags)
    ensures flags != 65535
  {
  }

  lemma SumModulo(total: nat, was: word, check: word, flags: word, folded: word)
    requires total % 65535 == 0 && was < 65535
    requires folded % 65535 == Patch(check, flags) % 65535
    requires total + flags + 65535 - folded - was - check >= 0
    ensures (total + flags + 65535 - folded - was - check) % 65535 == 0 <==> was == 0
  {
    var k := Patch(check, flags) / 65535 - folded / 65535;
    assert Patch(check, flags) == folded + 65535 * k;
    assert total == 65535 * (total / 65535);
    assert total + flags + 65535 - folded - was - check == 65535 * (total / 65535 + k) - was;
  }
}
