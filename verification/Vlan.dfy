/** The VLAN header is taken out before an incoming frame is looked up and put back afterwards. Both
    moves copy overlapping 16-bit words inside the frame buffer. */
module Vlan {
  import opened Bytes
  import opened Options
  import opened Seqs

  const ADDRESSES: nat := 12
  const TPID: seq<byte> := [0x81, 0x00]

  predicate Tagged(f: seq<byte>) {
    |f| >= ADDRESSES + 4 && f[ADDRESSES..ADDRESSES + 2] == TPID
  }

  function Tci(f: seq<byte>): seq<byte>
    requires Tagged(f)
  {
    f[ADDRESSES + 2..ADDRESSES + 4]
  }

  function Without(f: seq<byte>): seq<byte>
    requires Tagged(f)
  {
    f[..ADDRESSES] + f[ADDRESSES + 4..]
  }

  function With(f: seq<byte>, tci: seq<byte>): seq<byte>
    requires |f| >= ADDRESSES && |tci| == 2
  {
    f[..ADDRESSES] + TPID + tci + f[ADDRESSES..]
  }

  function Redirected(f: seq<byte>, dest: seq<byte>): seq<byte>
    requires |dest| == 6 <= |f|
  {
    dest + f[6..]
  }

  /** Taking out and putting back are inverse to each other. */
  lemma Inverse(f: seq<byte>)
    requires Tagged(f)
    ensures With(Without(f), Tci(f)) == f
  {
    var w := With(Without(f), Tci(f));
    assert Without(f)[..ADDRESSES] == f[..ADDRESSES];
    assert Without(f)[ADDRESSES..] == f[ADDRESSES + 4..];
    assert f == f[..ADDRESSES] + f[ADDRESSES..ADDRESSES + 2] + f[ADDRESSES + 2..ADDRESSES + 4] + f[ADDRESSES + 4..];
  }

  lemma InverseBack(f: seq<byte>, tci: seq<byte>)
    requires |f| >= ADDRESSES && |tci| == 2
    ensures Tagged(With(f, tci)) && Without(With(f, tci)) == f && Tci(With(f, tci)) == tci
  {
    var w := With(f, tci);
    assert w[ADDRESSES..ADDRESSES + 2] == TPID;
    assert w[..ADDRESSES] == f[..ADDRESSES];
    assert w[ADDRESSES + 4..] == f[ADDRESSES..];
    assert f == f[..ADDRESSES] + f[ADDRESSES..];
  }

  lemma RedirectCommutes(f: seq<byte>, tci: seq<byte>, dest: seq<byte>)
    requires |f| >= ADDRESSES && |tci| == 2 && |dest| == 6
    ensures With(Redirected(f, dest), tci) == Redirected(With(f, tci), dest)
  {
    var g := Redirected(f, dest);
    assert g[..ADDRESSES] == dest + f[6..ADDRESSES];
    assert g[ADDRESSES..] == f[ADDRESSES..];
    assert With(f, tci)[6..] == f[6..ADDRESSES] + TPID + tci + f[ADDRESSES..];
  }

  class Skb {
    const buf: array<byte>
    var data: nat  // offset of the first octet of the frame

    ghost predicate Valid() reads this { data <= buf.Length }

    ghost function Frame(): seq<byte>
      requires Valid()
      reads this, buf
    {
      buf[data..]
    }

    constructor (headroom: nat, frame: seq<byte>)
      ensures Valid() && fresh(buf) && Frame() == frame && data == headroom
    {
      buf := new byte[headroom + |frame|](i requires 0 <= i =>
        if headroom <= i < headroom + |frame| then frame[i - headroom] else 0);
      data := headroom;
    }

    /** A 16-bit store of a 16-bit load. */
    method MoveWord(to: nat, from: nat)
      requires Valid() && data + to + 2 <= buf.Length && data + from + 2 <= buf.Length
      modifies buf
      ensures buf[data + to] == old(buf[data + from]) && buf[data + to + 1] == old(buf[data + from + 1])
      ensures forall k | 0 <= k < buf.Length && k != data + to && k != data + to + 1 :: buf[k] == old(buf[k])
    {
      buf[data + to], buf[data + to + 1] := buf[data + from], buf[data + from + 1];
    }

    /** Moves the two addresses four octets up, last word first, and drops the four octets in front. */
    method Strip() returns (tci: Option<seq<byte>>)
      requires Valid() && |Frame()| >= ADDRESSES + 4
      modifies this`data, buf
      ensures Valid()
      ensures tci == if old(Tagged(Frame())) then Some(old(Tci(Frame()))) else None
      ensures Frame() == if tci == None then old(Frame()) else Without(old(Frame()))
      ensures data == if tci == None then old(data) else old(data) + 4
    {
      ghost var f := Frame();
      var d := data;
      assert buf[d + ADDRESSES..d + ADDRESSES + 2] == f[ADDRESSES..ADDRESSES + 2];
      assert buf[d + ADDRESSES + 2..d + ADDRESSES + 4] == f[ADDRESSES + 2..ADDRESSES + 4];
      if buf[d + ADDRESSES..d + ADDRESSES + 2] != TPID {
        return None;
      }
      tci := Some(buf[d + ADDRESSES + 2..d + ADDRESSES + 4]);
      for i := 0 to 6
        invariant data == d
        invariant forall k | 0 <= k < ADDRESSES - 2 * i :: buf[d + k] == f[k]
        invariant forall k | ADDRESSES - 2 * i <= k < ADDRESSES :: buf[d + 4 + k] == f[k]
        invariant forall k | ADDRESSES + 4 <= k < |f| :: buf[d + k] == f[k]
      {
        MoveWord(14 - 2 * i, 10 - 2 * i);
      }
      data := data + 4;
    }

    /** Takes the four octets in front back, moves the addresses down, first word first, and writes
        the VLAN header behind them. */
    method Restore(tci: seq<byte>)
      requires Valid() && data >= 4 && |Frame()| >= ADDRESSES && |tci| == 2
      modifies this`data, buf
      ensures Valid() && data == old(data) - 4
      ensures Frame() == With(old(Frame()), tci)
    {
      ghost var f := Frame();
      data := data - 4;
      MoveDown(f);
      ghost var moved := buf[..];
      var d, e := data + ADDRESSES, data + ADDRESSES + 4;
      Store(buf, d, TPID + tci);
      assert moved[data..d] == f[..ADDRESSES];
      assert moved[e..] == f[ADDRESSES..];
      Parts(moved[..d], TPID + tci, moved[e..]);
      assert buf[data..d] == buf[..d][data..] == moved[data..d];
      assert Frame() == buf[data..d] + buf[d..e] + buf[e..];
      Assoc(f[..ADDRESSES], TPID, tci);
    }

    method MoveDown(ghost f: seq<byte>)
      requires Valid() && |Frame()| == |f| + 4 && |f| >= ADDRESSES && Frame()[4..] == f
      modifies buf
      ensures forall k | 0 <= k < ADDRESSES :: buf[data + k] == f[k]
      ensures forall k | ADDRESSES <= k < |f| :: buf[data + 4 + k] == f[k]
    {
      var d := data;
      assert forall k | 0 <= k < |f| :: buf[d + 4 + k] == Frame()[4..][k];
      for i := 0 to 6
        invariant forall k | 0 <= k < 2 * i :: buf[d + k] == f[k]
        invariant forall k | 2 * i <= k < |f| :: buf[d + 4 + k] == f[k]
      {
        MoveWord(2 * i, 4 + 2 * i);
      }
    }

    /** What the lookup between the two does to the frame: nothing, or a new destination. */
    method Redirect(dest: Option<seq<byte>>)
      requires Valid() && |Frame()| >= ADDRESSES
      requires dest.Some? ==> |dest.value| == 6
      modifies buf
      ensures Frame() == if dest == None then old(Frame()) else Redirected(old(Frame()), dest.value)
    {
      if dest.Some? {
        Store(buf, data, dest.value);
      }
    }

    /** The whole passage changes the destination and nothing else, VLAN header or not; frames to a group
        address pass untouched. */
    method Pass(dest: Option<seq<byte>>)
      requires Valid() && |Frame()| >= ADDRESSES + 4
      requires dest.Some? ==> |dest.value| == 6
      modifies this`data, buf
      ensures Valid() && data == old(data)
      ensures Frame() == if dest == None || old(Frame())[0] % 2 == 1 then old(Frame())
                         else Redirected(old(Frame()), dest.value)
    {
      ghost var f := Frame();
      assert f[0] == buf[data];
      if buf[data] % 2 == 1 {
        return;
      }
      var tci := Strip();
      Redirect(dest);
      if tci.Some? {
        Restore(tci.value);
        Inverse(f);
        if dest.Some? {
          RedirectCommutes(Without(f), tci.value, dest.value);
        }
      }
    }
  }
}
