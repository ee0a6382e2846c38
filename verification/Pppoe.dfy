/** The frame side of the PPPoE relay: the tag search, the two buffer moves, and the handling of
    discovery requests (PADI, PADR) and replies (PADO, PADS) in the packet buffer. */
module Pppoe {
  import opened Bytes
  import opened Options
  import opened PppoeTags
  import Seqs

  datatype Endian = Big | Little

  /** What the bridge answers to a request: relayed; not PADI or PADR; the client's own relay tag does
      not fit the tag buffer; no room at the end of the frame; or forwarded with more octets copied than
      the tag buffer holds. */
  datatype Outcome = Relayed | Refused | TooLong | NoRoom | Overread

  const CODE: nat := 15
  const PADI: byte := 0x09
  const PADO: byte := 0x07
  const PADR: byte := 0x19
  const PADS: byte := 0x65

  function Word(hi: byte, lo: byte): (v: nat)
    ensures v < 65536
  {
    256 * hi + lo
  }

  /** A 16-bit field stored in network order, read by the host without conversion. */
  function RawRead(host: Endian, v: nat): nat
    requires v < 65536
  {
    if host == Big then v else Word(v % 256, v / 256)
  }

  /** How many octets are copied for a tag: its length field as the host reads it, and the header. */
  function Copied(host: Endian, t: Tag): nat { RawRead(host, |t.data|) + TAG_HDR }

  /** Memory from the tag buffer on, as far as any copy can reach. */
  const REACH: nat := 65540

  /** A little-endian host takes the length for 256 times what it is, past the tag buffer. */
  lemma LittleEndianOverreads(t: Tag)
    requires OVERHEAD <= |t.data| && TAG_HDR + |t.data| <= TAG_BUF
    ensures Copied(Big, t) == |Octets(t)| <= TAG_BUF
    ensures Copied(Little, t) == 256 * |t.data| + TAG_HDR > TAG_BUF
    ensures Copied(Little, t) <= REACH
  {
  }

  function SetLength(f: seq<byte>, n: nat): (g: seq<byte>)
    requires |f| >= TAGS && n < 65536
    ensures |g| == |f|
  {
    f[..PPPOE_HEAD] + U16(n) + f[TAGS..]
  }

  function Cut(f: seq<byte>, at: nat, n: nat): (g: seq<byte>)
    requires at + n <= |f|
    ensures |g| == |f| - n
  {
    f[..at] + f[at + n..]
  }

  ghost function Offset(ts: seq<Tag>, k: nat): nat
    requires k <= |ts|
  {
    TAGS + |Encode(ts[..k])|
  }

  // ------------------------------------------------------------ frames as tag lists

  lemma Parts(head: seq<byte>, ts: seq<Tag>, pad: seq<byte>)
    requires |head| == PPPOE_HEAD && |Encode(ts)| < 65536
    ensures var f := Build(head, ts, pad);
            && |f| == TAGS + |Encode(ts)| + |pad|
            && f[..PPPOE_HEAD] == head
            && Word(f[PPPOE_HEAD], f[PPPOE_HEAD + 1]) == |Encode(ts)|
            && f[TAGS..TAGS + |Encode(ts)|] == Encode(ts)
            && f[TAGS + |Encode(ts)|..] == pad
  {
  }

  /** A frame up to tag `k`, with a given length field, and from tag `k` on. */
  ghost function Before(head: seq<byte>, length: nat, ts: seq<Tag>, k: nat): (s: seq<byte>)
    requires k <= |ts| && length < 65536
    ensures |s| == |head| + 2 + |Encode(ts[..k])|
  {
    head + U16(length) + Encode(ts[..k])
  }

  ghost function After(ts: seq<Tag>, k: nat, pad: seq<byte>): seq<byte>
    requires k <= |ts|
  {
    Encode(ts[k..]) + pad
  }

  /** Where the tags of a frame lie. */
  lemma TagAt(head: seq<byte>, ts: seq<Tag>, pad: seq<byte>, k: nat)
    requires |head| == PPPOE_HEAD && |Encode(ts)| < 65536 && k < |ts|
    ensures Offset(ts, k) + |Octets(ts[k])| == Offset(ts, k + 1) <= TAGS + |Encode(ts)|
    ensures Build(head, ts, pad) == Before(head, |Encode(ts)|, ts, k) + Octets(ts[k]) + After(ts, k + 1, pad)
  {
    hide Encode, Octets, U16;
    SplitAt(ts, k);
    Regroup(head + U16(|Encode(ts)|), Encode(ts[..k]), Octets(ts[k]), Encode(ts[k + 1..]), pad);
    Seqs.Take(ts, k);
    EncodeSplit(ts[..k], [ts[k]]);
    EncodeOne(ts[k]);
  }

  lemma Regroup(a: seq<byte>, b: seq<byte>, c: seq<byte>, d: seq<byte>, e: seq<byte>)
    ensures a + (b + c + d) + e == (a + b) + c + (d + e)
  {
  }

  lemma TagFields(head: seq<byte>, ts: seq<Tag>, pad: seq<byte>, k: nat)
    requires |head| == PPPOE_HEAD && |Encode(ts)| < 65536 && k < |ts|
    ensures var f := Build(head, ts, pad);
            var at := Offset(ts, k);
            var n := |ts[k].data|;
            && at + TAG_HDR + n <= TAGS + |Encode(ts)| <= |f|
            && Word(f[at], f[at + 1]) == ts[k].kind
            && Word(f[at + 2], f[at + 3]) == n
            && f[at + TAG_HDR..at + TAG_HDR + n] == ts[k].data
  {
    TagAt(head, ts, pad, k);
    var o := Octets(ts[k]);
    Seqs.Parts(Before(head, |Encode(ts)|, ts, k), o, After(ts, k + 1, pad));
    var f := Build(head, ts, pad);
    var at := Offset(ts, k);
    assert f[at..at + |o|] == o;
    assert f[at] == o[0] && f[at + 1] == o[1] && f[at + 2] == o[2] && f[at + 3] == o[3];
    SliceOfSlice(f, at, at + |o|, TAG_HDR, |o|);
  }

  lemma Relength(head: seq<byte>, was: nat, length: nat, a: seq<byte>, b: seq<byte>, c: seq<byte>)
    requires |head| == PPPOE_HEAD && was < 65536 && length < 65536
    ensures SetLength((head + U16(was) + a) + b + c, length) == (head + U16(length) + a) + b + c
  {
    var f := (head + U16(was) + a) + b + c;
    assert f[..PPPOE_HEAD] == head && f[TAGS..] == a + b + c;
  }

  /** Octets put in front of the tags, with the length corrected, put a tag in front. */
  lemma Prefixed(head: seq<byte>, ts: seq<Tag>, t: Tag, pad: seq<byte>)
    requires |head| == PPPOE_HEAD && |Encode(ts)| + TAG_HDR + |t.data| < 65536
    ensures |Encode([t] + ts)| == |Octets(t)| + |Encode(ts)|
    ensures Build(head, [t] + ts, pad) == head + U16(|Octets(t)| + |Encode(ts)|) + Octets(t) + Encode(ts) + pad
  {
    EncodeSplit([t], ts);
    EncodeOne(t);
  }

  function Patch16(f: seq<byte>, at: nat, v: nat): (g: seq<byte>)
    requires at + 2 <= |f| && v < 65536
    ensures |g| == |f|
  {
    f[..at] + U16(v) + f[at + 2..]
  }

  /** Taking the first octets of a tag's data and correcting its length field. */
  lemma Shortened(a: seq<byte>, t: Tag, n: nat, c: seq<byte>)
    requires n <= |t.data|
    ensures var f := a + Octets(t) + c;
            Patch16(Cut(f, |a| + TAG_HDR, n), |a| + 2, |t.data| - n) == a + Octets(Tag(t.kind, t.data[n..])) + c
  {
    var f := a + Octets(t) + c;
    var x := a + U16(t.kind);
    assert f == x + U16(|t.data|) + t.data + c;
    assert f[..|a| + TAG_HDR] == x + U16(|t.data|);
    assert f[|a| + TAG_HDR + n..] == t.data[n..] + c;
    assert Cut(f, |a| + TAG_HDR, n) == x + U16(|t.data|) + (t.data[n..] + c);
  }

  lemma PatchesCommute(f: seq<byte>, at: nat, v: nat, n: nat)
    requires TAGS <= at && at + 2 <= |f| && v < 65536 && n < 65536
    ensures Patch16(SetLength(f, n), at, v) == SetLength(Patch16(f, at, v), n)
  {
  }

  /** Writing the destination address touches the header only. */
  lemma Readdressed(head: seq<byte>, ts: seq<Tag>, pad: seq<byte>, dest: seq<byte>)
    requires |head| == PPPOE_HEAD && |Encode(ts)| < 65536 && |dest| == ETH_ALEN
    ensures dest + Build(head, ts, pad)[ETH_ALEN..] == Build(dest + head[ETH_ALEN..], ts, pad)
  {
    var rest := U16(|Encode(ts)|) + Encode(ts) + pad;
    assert Build(head, ts, pad) == head + rest;
    assert (head + rest)[ETH_ALEN..] == head[ETH_ALEN..] + rest;
  }

  /** Taking the first octets of one tag's data out leaves a shorter tag in its place. */
  lemma ShortenTag(head: seq<byte>, ts: seq<Tag>, pad: seq<byte>, k: nat, t': Tag)
    requires |head| == PPPOE_HEAD && |Encode(ts)| < 65536
    requires k < |ts| && |ts[k].data| >= OVERHEAD && t' == Tag(ts[k].kind, ts[k].data[OVERHEAD..])
    ensures var f := Build(head, ts, pad);
            var at := Offset(ts, k);
            var n := |ts[k].data|;
            && TAGS <= at && at + TAG_HDR + n <= TAGS + |Encode(ts)| <= |f|
            && |Encode(ts[..k] + [t'] + ts[k + 1..])| == |Encode(ts)| - OVERHEAD
            && Build(head, ts[..k] + [t'] + ts[k + 1..], pad)
               == Patch16(SetLength(Cut(f, at + TAG_HDR, OVERHEAD), |Encode(ts)| - OVERHEAD), at + 2, n - OVERHEAD)
  {
    hide SetLength, Cut, Patch16, Encode, Octets, U16;
    TagAt(head, ts, pad, k);
    SplitAt(ts, k);
    EncodeOne(t');
    EncodeSplit(ts[..k] + [t'], ts[k + 1..]);
    EncodeSplit(ts[..k], [t']);
    ShortenOctets(head, |Encode(ts)|, Encode(ts[..k]), ts[k], Encode(ts[k + 1..]), pad);
  }

  /** Taking the bridge's part out of a longer tag leaves the client's own relay tag. */
  lemma StrippedPart(head: seq<byte>, ts: seq<Tag>, pad: seq<byte>)
    requires |head| == PPPOE_HEAD && |Encode(ts)| < 65536 && Ours(ts)
    requires |ts[First(ts, RELAY)].data| > OVERHEAD
    ensures var k := First(ts, RELAY);
            var f := Build(head, ts, pad);
            var at := Offset(ts, k);
            var n := |ts[k].data|;
            && TAGS <= at && at + TAG_HDR + n <= TAGS + |Encode(ts)| <= |f|
            && |Encode(Stripped(ts))| == |Encode(ts)| - OVERHEAD
            && Build(head, Stripped(ts), pad)
               == Patch16(SetLength(Cut(f, at + TAG_HDR, OVERHEAD), |Encode(ts)| - OVERHEAD), at + 2, n - OVERHEAD)
  {
    hide Build, SetLength, Cut, Patch16, Encode, U16, First;
    var k := First(ts, RELAY);
    ShortenTag(head, ts, pad, k, Tag(RELAY, ts[k].data[OVERHEAD..]));
  }

  lemma ShortenOctets(head: seq<byte>, length: nat, x: seq<byte>, t: Tag, y: seq<byte>, pad: seq<byte>)
    requires |head| == PPPOE_HEAD && OVERHEAD <= length < 65536 && |t.data| >= OVERHEAD
    ensures Patch16(SetLength(Cut((head + U16(length) + x) + Octets(t) + (y + pad), TAGS + |x| + TAG_HDR, OVERHEAD),
                              length - OVERHEAD),
                    TAGS + |x| + 2, |t.data| - OVERHEAD)
            == head + U16(length - OVERHEAD) + (x + Octets(Tag(t.kind, t.data[OVERHEAD..])) + y) + pad
  {
    hide SetLength, Cut, Patch16, Octets;
    var o := Octets(Tag(t.kind, t.data[OVERHEAD..]));
    ShortenedFrame(head + U16(length) + x, t, y + pad, length - OVERHEAD);
    Relength(head, length, length - OVERHEAD, x, o, y + pad);
    Regroup(head + U16(length - OVERHEAD), x, o, y, pad);
  }

  lemma ShortenedFrame(a: seq<byte>, t: Tag, c: seq<byte>, length: nat)
    requires |a| >= TAGS && |t.data| >= OVERHEAD && length < 65536
    ensures Patch16(SetLength(Cut(a + Octets(t) + c, |a| + TAG_HDR, OVERHEAD), length), |a| + 2, |t.data| - OVERHEAD)
            == SetLength(a + Octets(Tag(t.kind, t.data[OVERHEAD..])) + c, length)
  {
    Shortened(a, t, OVERHEAD, c);
    PatchesCommute(Cut(a + Octets(t) + c, |a| + TAG_HDR, OVERHEAD), |a| + 2, |t.data| - OVERHEAD, length);
  }

  /** Cutting a whole tag out, with the length corrected, leaves the other tags. */
  lemma WithoutTag(head: seq<byte>, ts: seq<Tag>, pad: seq<byte>, k: nat)
    requires |head| == PPPOE_HEAD && |Encode(ts)| < 65536 && k < |ts|
    ensures var f := Build(head, ts, pad);
            var at := Offset(ts, k);
            var n := TAG_HDR + |ts[k].data|;
            && TAGS <= at && at + n <= TAGS + |Encode(ts)| <= |f|
            && |Encode(ts[..k] + ts[k + 1..])| == |Encode(ts)| - n
            && Build(head, ts[..k] + ts[k + 1..], pad) == SetLength(Cut(f, at, n), |Encode(ts)| - n)
  {
    hide SetLength, Cut, Encode, Octets, U16;
    TagAt(head, ts, pad, k);
    SplitAt(ts, k);
    EncodeSplit(ts[..k], ts[k + 1..]);
    CutOctets(head, |Encode(ts)|, Encode(ts[..k]), Octets(ts[k]), Encode(ts[k + 1..]), pad);
  }

  lemma CutOctets(head: seq<byte>, length: nat, x: seq<byte>, o: seq<byte>, y: seq<byte>, pad: seq<byte>)
    requires |head| == PPPOE_HEAD && |o| <= length < 65536
    ensures SetLength(Cut((head + U16(length) + x) + o + (y + pad), TAGS + |x|, |o|), length - |o|)
            == head + U16(length - |o|) + (x + y) + pad
  {
    var a, c := head + U16(length) + x, y + pad;
    Seqs.Parts(a, o, c);
    Relength(head, length, length - |o|, x, [], c);
    assert a + [] == a;
    assert Cut(a + o + c, |a|, |o|) == a + c;
    Regroup(head + U16(length - |o|), x, [], y, pad);
    assert x + [] == x;
    var b := head + U16(length - |o|);
    assert b + x + [] == b + x;
  }

  /** Taking out a tag with nothing else in it leaves the other tags. */
  lemma StrippedWhole(head: seq<byte>, ts: seq<Tag>, pad: seq<byte>)
    requires |head| == PPPOE_HEAD && |Encode(ts)| < 65536 && Ours(ts)
    requires |ts[First(ts, RELAY)].data| == OVERHEAD
    ensures var f := Build(head, ts, pad);
            var at := Offset(ts, First(ts, RELAY));
            var n := TAG_HDR + OVERHEAD;
            && TAGS <= at && at + n <= TAGS + |Encode(ts)| <= |f|
            && |Encode(Stripped(ts))| == |Encode(ts)| - n
            && Build(head, Stripped(ts), pad) == SetLength(Cut(f, at, n), |Encode(ts)| - n)
  {
    hide Build, SetLength, Cut, Encode, U16;
    var k := First(ts, RELAY);
    WithoutTag(head, ts, pad, k);
    assert ts[..k] + [] == ts[..k];
  }

  /** The buffer after the tags have been moved up to leave a gap. */
  lemma MovedUp(was: seq<byte>, now: seq<byte>, len: nat, n: nat, length: nat)
    requires TAGS + length <= len && len + n <= |was|
    requires now == was[..TAGS + n] + was[TAGS..TAGS + length] + was[TAGS + n + length..]
    ensures now[..len + n][..TAGS] == was[..len][..TAGS]
    ensures now[..len + n][TAGS + n..] == was[..len][TAGS..TAGS + length] + now[TAGS + n + length..len + n]
  {
    Seqs.Parts(was[..TAGS + n], was[TAGS..TAGS + length], was[TAGS + n + length..]);
    SliceOfSlice(was, 0, len, TAGS, TAGS + length);
    SliceOfSlice(now, 0, len + n, TAGS + n, len + n);
    SliceOfSlice(was, 0, TAGS + n, 0, TAGS);
    SliceOfSlice(now, 0, TAGS + n, 0, TAGS);
    SliceOfSlice(was, 0, len, 0, TAGS);
    SliceOfSlice(now, 0, len + n, 0, TAGS);
    Joined(now, TAGS + n, TAGS + n + length, len + n);
  }

  lemma Joined(s: seq<byte>, a: nat, b: nat, c: nat)
    requires a <= b <= c <= |s|
    ensures s[a..c] == s[a..b] + s[b..c]
  {
  }

  /** How the walk over the tags ends: at a tag of the kind, at the end of the tags, or outside the
      memory of the frame. */
  datatype Walked = Found(at: nat) | Absent | Stray

  /** The walk from octet `at` of the memory on, following the length fields. */
  function Walk(m: seq<byte>, at: nat, end: nat, kind: nat): Walked
    decreases end - at
  {
    if at >= end then Absent
    else if at + TAG_HDR > |m| then Stray
    else if Word(m[at], m[at + 1]) == kind then Found(at)
    else Walk(m, at + TAG_HDR + Word(m[at + 2], m[at + 3]), end, kind)
  }

  /** On well-formed tags the walk finds the first tag of the kind and never strays. */
  lemma WalkFindsFirst(head: seq<byte>, ts: seq<Tag>, pad: seq<byte>, kind: nat)
    requires |head| == PPPOE_HEAD && |Encode(ts)| < 65536
    ensures Walk(Build(head, ts, pad), TAGS, TAGS + |Encode(ts)|, kind) ==
            var k := First(ts, kind); if k < |ts| then Found(Offset(ts, k)) else Absent
  {
    assert ts[..0] == [] && Encode([]) == [];
    WalkFrom(head, ts, pad, kind, 0);
  }

  lemma {:induction false} WalkFrom(head: seq<byte>, ts: seq<Tag>, pad: seq<byte>, kind: nat, k: nat)
    requires |head| == PPPOE_HEAD && |Encode(ts)| < 65536 && k <= First(ts, kind)
    ensures Walk(Build(head, ts, pad), Offset(ts, k), TAGS + |Encode(ts)|, kind) ==
            var f := First(ts, kind); if f < |ts| then Found(Offset(ts, f)) else Absent
    decreases |ts| - k
  {
    assert ts[..|ts|] == ts;
    hide Build, Encode, First, Walk;
    if k == |ts| {
      WalkEnds(Build(head, ts, pad), TAGS + |Encode(ts)|, kind);
    } else {
      WalkTag(head, ts, pad, kind, k);
      if ts[k].kind != kind {
        WalkFrom(head, ts, pad, kind, k + 1);
      }
    }
  }

  lemma WalkTag(head: seq<byte>, ts: seq<Tag>, pad: seq<byte>, kind: nat, k: nat)
    requires |head| == PPPOE_HEAD && |Encode(ts)| < 65536 && k < |ts|
    ensures var m, end := Build(head, ts, pad), TAGS + |Encode(ts)|;
            Walk(m, Offset(ts, k), end, kind) ==
            if ts[k].kind == kind then Found(Offset(ts, k)) else Walk(m, Offset(ts, k + 1), end, kind)
  {
    hide Build, Encode, Octets, Walk, Word, Before, After;
    TagFields(head, ts, pad, k);
    TagAt(head, ts, pad, k);
    WalkOnce(Build(head, ts, pad), Offset(ts, k), TAGS + |Encode(ts)|, kind, ts[k].kind, |ts[k].data|);
  }

  lemma WalkEnds(m: seq<byte>, end: nat, kind: nat)
    ensures Walk(m, end, end, kind) == Absent
  {
  }

  lemma WalkOnce(m: seq<byte>, at: nat, end: nat, kind: nat, tag: nat, n: nat)
    requires at < end && at + TAG_HDR <= |m| && Word(m[at], m[at + 1]) == tag && Word(m[at + 2], m[at + 3]) == n
    ensures Walk(m, at, end, kind) == if tag == kind then Found(at) else Walk(m, at + TAG_HDR + n, end, kind)
  {
  }

  lemma Extended(head: seq<byte>, ts: seq<Tag>, pad: seq<byte>, more: seq<byte>)
    requires |head| == PPPOE_HEAD && |Encode(ts)| < 65536
    ensures Build(head, ts, pad) + more == Build(head, ts, pad + more)
  {
  }

  /** The frame after `n` octets from the tag buffer on have been put in front of the tags. */
  function Overrun(head: seq<byte>, ts: seq<Tag>, t: Tag, behind: seq<byte>, n: nat, pad: seq<byte>): (f: seq<byte>)
    requires |head| == PPPOE_HEAD && |Octets(t)| + |behind| >= n && |Encode(ts)| + n < 65536
    ensures |f| == TAGS + n + |Encode(ts)| + |pad|
  {
    head + U16(|Encode(ts)| + n) + (Octets(t) + behind)[..n] + Encode(ts) + pad
  }

  lemma OverrunForm(head: seq<byte>, ts: seq<Tag>, t: Tag, behind: seq<byte>, n: nat, pad: seq<byte>)
    requires |head| == PPPOE_HEAD && |Octets(t)| + |behind| >= n && n + |Encode(ts)| < 65536
    ensures Overrun(head, ts, t, behind, n, pad) ==
            head + U16(n + |Encode(ts)|) + (Octets(t) + behind)[..n] + Encode(ts) + pad
  {
  }

  /** It begins with the right tag, but is the frame of no relayed request: its length field counts the
      octets that do not belong to it. */
  lemma OverrunIsNoRelay(head: seq<byte>, ts: seq<Tag>, t: Tag, behind: seq<byte>, n: nat, pad: seq<byte>, x: seq<byte>)
    requires |head| == PPPOE_HEAD && |Octets(t)| + |behind| >= n > |Octets(t)| && |Encode(ts)| + n < 65536
    requires |Encode([t] + ts)| < 65536
    ensures Overrun(head, ts, t, behind, n, pad)[TAGS..TAGS + |Octets(t)|] == Octets(t)
    ensures Overrun(head, ts, t, behind, n, pad) != Build(head, [t] + ts, x)
  {
    var f, g := Overrun(head, ts, t, behind, n, pad), Build(head, [t] + ts, x);
    Parts(head, [t] + ts, x);
    EncodeSplit([t], ts);
    EncodeOne(t);
    assert Word(f[PPPOE_HEAD], f[PPPOE_HEAD + 1]) == |Encode(ts)| + n;
  }

  // ------------------------------------------------------------ the packet buffer

  class Skb {
    const buf: array<byte>
    var len: nat

    ghost predicate Valid() reads this { len <= buf.Length < 65536 }

    ghost function Frame(): seq<byte>
      requires Valid()
      reads this, buf
    {
      buf[..len]
    }

    constructor (frame: seq<byte>, tailroom: nat)
      requires |frame| + tailroom < 65536
      ensures Valid() && fresh(buf) && Frame() == frame && buf.Length == |frame| + tailroom
    {
      buf := new byte[|frame| + tailroom](i requires 0 <= i => if i < |frame| then frame[i] else 0);
      len := |frame|;
    }

    /** Takes `n` octets out of the frame; refuses if they are not all there. */
    method PullAndMerge(src: nat, n: nat) returns (ok: bool)
      requires Valid()
      modifies this`len, buf
      ensures Valid()
      ensures ok <==> src + n <= old(len)
      ensures ok ==> Frame() == Cut(old(Frame()), src, n)
      ensures !ok ==> len == old(len) && buf[..] == old(buf[..])
    {
      if src + n > len {
        return false;
      }
      Store(buf, src, buf[src + n..len]);
      len := len - n;
      assert buf[..len] == old(buf[..src]) + old(buf[src + n..len]);
      ok := true;
    }

    /** Writes a 16-bit field in network order. */
    method Put16(at: nat, v: nat)
      requires Valid() && at + 2 <= len && v < 65536
      modifies buf
      ensures Frame() == Patch16(old(Frame()), at, v)
    {
      buf[at] := v / 256;
      buf[at + 1] := v % 256;
    }

    /** The walk over the tags, well formed or not, in the memory of the buffer. */
    method FindTag(kind: nat) returns (r: Walked)
      requires Valid() && len >= TAGS
      ensures r == Walk(buf[..], TAGS, TAGS + Word(buf[PPPOE_HEAD], buf[PPPOE_HEAD + 1]), kind)
    {
      var end := TAGS + Word(buf[PPPOE_HEAD], buf[PPPOE_HEAD + 1]);
      var at := TAGS;
      while at < end
        invariant Walk(buf[..], at, end, kind) == Walk(buf[..], TAGS, end, kind)
        decreases end - at
      {
        if at + TAG_HDR > buf.Length {
          return Stray;
        }
        if Word(buf[at], buf[at + 1]) == kind {
          return Found(at);
        }
        at := at + TAG_HDR + Word(buf[at + 2], buf[at + 3]);
      }
      r := Absent;
    }

    /** On a well-formed frame: the first tag of a kind. */
    method FindIn(kind: nat, ghost head: seq<byte>, ghost ts: seq<Tag>, ghost pad: seq<byte>)
      returns (found: bool, at: nat)
      requires Valid() && |head| == PPPOE_HEAD && |Encode(ts)| < 65536
      requires Frame() == Build(head, ts, pad)
      ensures found <==> First(ts, kind) < |ts|
      ensures found ==> at == Offset(ts, First(ts, kind))
      ensures found ==> at + TAG_HDR <= len
    {
      hide Build, Encode, Walk;
      Parts(head, ts, pad);
      assert buf[PPPOE_HEAD] == Frame()[PPPOE_HEAD] && buf[PPPOE_HEAD + 1] == Frame()[PPPOE_HEAD + 1];
      assert buf[..] == Frame() + buf[len..];
      Extended(head, ts, pad, buf[len..]);
      WalkFindsFirst(head, ts, pad + buf[len..], kind);
      var r := FindTag(kind);
      found, at := r.Found?, if r.Found? then r.at else 0;
      if found {
        TagFields(head, ts, pad, First(ts, kind));
      }
    }

    /** Opens a gap of `n` octets in front of the tags and fills it with the first `n` octets of the
        tag buffer. `n` comes from the tag's length field, read without byte-order conversion. */
    method AddTag(host: Endian, t: Tag, behind: seq<byte>, ghost head: seq<byte>, ghost ts: seq<Tag>,
                  ghost pad: seq<byte>)
      returns (r: Outcome, ghost pad': seq<byte>)
      requires Valid() && |head| == PPPOE_HEAD && |Encode(ts)| < 65536
      requires Frame() == Build(head, ts, pad)
      requires OVERHEAD <= |t.data| && TAG_HDR + |t.data| <= TAG_BUF && |behind| >= REACH
      modifies this`len, buf
      ensures Valid()
      ensures r == Outcome.Relayed <==> host == Big && old(len) + Copied(host, t) <= buf.Length
      ensures r == Overread <==> host == Little && old(len) + Copied(host, t) <= buf.Length
      ensures r != TooLong && r != Refused
      ensures r == Outcome.Relayed ==>
                && |Encode([t] + ts)| < 65536
                && |pad'| == |pad|
                && Frame() == Build(head, [t] + ts, pad')
      ensures r == Overread ==>
                && |Encode(ts)| + Copied(host, t) < 65536
                && |pad'| == |pad|
                && Frame() == Overrun(head, ts, t, behind, Copied(host, t), pad')
      ensures r == NoRoom ==> len == old(len) && buf[..] == old(buf[..])
    {
      LittleEndianOverreads(t);
      hide Build, Encode, U16, Octets, Overrun, RawRead, Copied;
      pad' := pad;
      var n := Copied(host, t);
      if buf.Length - len < n {
        return NoRoom, pad;
      }
      pad' := PutInFront((Octets(t) + behind)[..n], head, ts, pad);
      if host == Big {
        assert (Octets(t) + behind)[..n] == Octets(t);
        Prefixed(head, ts, t, pad');
        return Outcome.Relayed, pad';
      }
      OverrunForm(head, ts, t, behind, n, pad');
      r := Overread;
    }

    method PutInFront(s: seq<byte>, ghost head: seq<byte>, ghost ts: seq<Tag>, ghost pad: seq<byte>)
      returns (ghost pad': seq<byte>)
      requires Valid() && |head| == PPPOE_HEAD && |Encode(ts)| < 65536 && len + |s| <= buf.Length
      requires Frame() == Build(head, ts, pad)
      modifies this`len, buf
      ensures Valid() && |s| + |Encode(ts)| < 65536 && |pad'| == |pad|
      ensures Frame() == head + U16(|s| + |Encode(ts)|) + s + Encode(ts) + pad'
    {
      hide Build, Encode, U16;
      Parts(head, ts, pad);
      assert buf[PPPOE_HEAD] == Frame()[PPPOE_HEAD] && buf[PPPOE_HEAD + 1] == Frame()[PPPOE_HEAD + 1];
      pad' := PrefixTags(s, |Encode(ts)|);
    }

    /** The four steps of adding a tag: extend the frame, move the tags up, correct the length, copy
        the tag into the gap. */
    method PrefixTags(s: seq<byte>, ghost n: nat) returns (ghost pad: seq<byte>)
      requires Valid() && TAGS + n <= len && len + |s| <= buf.Length
      requires Word(buf[PPPOE_HEAD], buf[PPPOE_HEAD + 1]) == n
      modifies this`len, buf
      ensures Valid()
      ensures |pad| == old(len) - TAGS - n
      ensures Frame() == old(Frame())[..PPPOE_HEAD] + U16(|s| + n) + s + old(Frame())[TAGS..TAGS + n] + pad
    {
      var length := Word(buf[PPPOE_HEAD], buf[PPPOE_HEAD + 1]);
      pad := MakeRoom(|s|, length);
      ghost var f := Frame();
      Put16(PPPOE_HEAD, length + |s|);
      ghost var g := Frame();
      assert g[..TAGS] == f[..PPPOE_HEAD] + U16(|s| + n);
      assert g[TAGS + |s|..] == f[TAGS + |s|..];
      Fill(s);
      assert f[..PPPOE_HEAD] == f[..TAGS][..PPPOE_HEAD] == old(Frame())[..PPPOE_HEAD];
    }

    method MakeRoom(n: nat, length: nat) returns (ghost pad: seq<byte>)
      requires Valid() && TAGS + length <= len && len + n <= buf.Length
      modifies this`len, buf
      ensures Valid() && len == old(len) + n
      ensures |pad| == old(len) - TAGS - length
      ensures Frame()[..TAGS] == old(Frame())[..TAGS]
      ensures Frame()[TAGS + n..] == old(Frame())[TAGS..TAGS + length] + pad
    {
      ghost var was, before := buf[..], len;
      len := len + n;
      Store(buf, TAGS + n, buf[TAGS..TAGS + length]);
      pad := buf[TAGS + n + length..len];
      MovedUp(was, buf[..], before, n, length);
    }

    /** Writes the new tag into the gap. */
    method Fill(s: seq<byte>)
      requires Valid() && TAGS + |s| <= len
      modifies buf
      ensures Frame() == old(Frame())[..TAGS] + s + old(Frame())[TAGS + |s|..]
    {
      Store(buf, TAGS, s);
    }

    /** Finds the client's own relay tag and reads it. */
    method ReadOwn(ghost head: seq<byte>, ghost ts: seq<Tag>, ghost pad: seq<byte>)
      returns (found: bool, at: nat, n: nat)
      requires Valid() && |head| == PPPOE_HEAD && |Encode(ts)| < 65536
      requires Frame() == Build(head, ts, pad)
      ensures found <==> First(ts, RELAY) < |ts|
      ensures found ==>
                && at == Offset(ts, First(ts, RELAY)) && n == |OwnData(ts)|
                && at + TAG_HDR + n <= len && buf[at + TAG_HDR..at + TAG_HDR + n] == OwnData(ts)
    {
      n := 0;
      found, at := FindIn(RELAY, head, ts, pad);
      if !found {
        return;
      }
      TagFields(head, ts, pad, First(ts, RELAY));
      assert buf[at + 2] == Frame()[at + 2] && buf[at + 3] == Frame()[at + 3];
      n := Word(buf[at + 2], buf[at + 3]);
      SliceOfSlice(buf[..], 0, len, at + TAG_HDR, at + TAG_HDR + n);
    }

    /** Takes a whole tag out. */
    method DropTag(at: nat, n: nat, ghost k: nat, ghost head: seq<byte>, ghost ts: seq<Tag>, ghost pad: seq<byte>)
      requires Valid() && |head| == PPPOE_HEAD && |Encode(ts)| < 65536 && k < |ts|
      requires Frame() == Build(head, ts, pad)
      requires at == Offset(ts, k) && n == TAG_HDR + |ts[k].data|
      modifies this`len, buf
      ensures Valid() && len == old(len) - n
      ensures |Encode(ts[..k] + ts[k + 1..])| < 65536 && Frame() == Build(head, ts[..k] + ts[k + 1..], pad)
    {
      hide Build, SetLength, Cut, Encode, Octets;
      WithoutTag(head, ts, pad, k);
      RemoveOctets(at, n, |Encode(ts)|, head, ts, pad);
    }

    /** Takes the client's own relay tag out of the frame and keeps its data. */
    method TakeOwn(ghost head: seq<byte>, ghost ts: seq<Tag>, ghost pad: seq<byte>)
      returns (fits: bool, own: seq<byte>)
      requires Valid() && |head| == PPPOE_HEAD && |Encode(ts)| < 65536
      requires Frame() == Build(head, ts, pad)
      modifies this`len, buf
      ensures Valid()
      ensures fits <==> OwnFits(ts)
      ensures fits ==>
                && own == OwnData(ts)
                && |Encode(WithoutRelay(ts))| < 65536
                && Frame() == Build(head, WithoutRelay(ts), pad)
                && len == old(len) - |Encode(Own(ts))|
      ensures !fits ==> len == old(len) && buf[..] == old(buf[..])
    {
      hide Build, Encode, Octets;
      OwnOctets(ts);
      var found, at, n := ReadOwn(head, ts, pad);
      if !found {
        return true, [];
      }
      if n + TAG_HDR + OVERHEAD > TAG_BUF {
        return false, [];
      }
      own := buf[at + TAG_HDR..at + TAG_HDR + n];
      DropTag(at, TAG_HDR + n, First(ts, RELAY), head, ts, pad);
      fits := true;
    }

    /** Takes octets out of the tags and corrects the length; both callers stay inside the frame, so
        the move cannot fail. */
    method RemoveOctets(at: nat, n: nat, ghost length: nat, ghost head: seq<byte>, ghost ts: seq<Tag>,
                        ghost pad: seq<byte>)
      requires Valid() && |head| == PPPOE_HEAD && length == |Encode(ts)| < 65536
      requires Frame() == Build(head, ts, pad)
      requires TAGS <= at && at + n <= TAGS + length
      modifies this`len, buf
      ensures Valid() && len == old(len) - n
      ensures Frame() == SetLength(Cut(old(Frame()), at, n), length - n)
    {
      Parts(head, ts, pad);
      ghost var f := Frame();
      assert buf[PPPOE_HEAD] == f[PPPOE_HEAD] && buf[PPPOE_HEAD + 1] == f[PPPOE_HEAD + 1];
      var was := Word(buf[PPPOE_HEAD], buf[PPPOE_HEAD + 1]);
      var ok := PullAndMerge(at, n);
      assert ok;
      Put16(PPPOE_HEAD, was - n);
    }

    /** A discovery request on its way out. It is relayed exactly when the host's byte order is the
        network's, the client's own relay tag fits, and the frame has room; then the relay tag is in
        front, the client's own relay tag is folded into it, every other tag stays, and the length
        field is right. */
    method InsertRelay(host: Endian, behind: seq<byte>, ghost head: seq<byte>, ghost ts: seq<Tag>, ghost pad: seq<byte>)
      returns (r: Outcome, ghost pad': seq<byte>)
      requires Valid() && |head| == PPPOE_HEAD && |Encode(ts)| < 65536 && |behind| >= REACH
      requires Frame() == Build(head, ts, pad)
      modifies this`len, buf
      ensures Valid()
      ensures r == Refused <==> head[CODE] != PADI && head[CODE] != PADR
      ensures r == TooLong <==> r != Refused && !OwnFits(ts)
      ensures r == Outcome.Relayed <==>
              && (head[CODE] == PADI || head[CODE] == PADR)
              && OwnFits(ts)
              && host == Big
              && old(len) + TAG_HDR + OVERHEAD - (if OwnRelay(ts) == None then 0 else TAG_HDR) <= buf.Length
      ensures r == Overread <==>
              && (head[CODE] == PADI || head[CODE] == PADR)
              && OwnFits(ts)
              && host == Little
              && old(len) - |Encode(Own(ts))| + 256 * (OVERHEAD + |OwnData(ts)|) + TAG_HDR <= buf.Length
      ensures r == Outcome.Relayed ==>
                && OwnFits(ts)
                && |Encode(PppoeTags.Relayed(ts, head[ETH_ALEN..2 * ETH_ALEN]))| < 65536
                && |pad'| == |pad|
                && Frame() == Build(head, PppoeTags.Relayed(ts, head[ETH_ALEN..2 * ETH_ALEN]), pad')
      ensures r == Refused || r == TooLong ==> len == old(len) && buf[..] == old(buf[..])
      ensures r == NoRoom ==>
                |Encode(WithoutRelay(ts))| < 65536 && Frame() == Build(head, WithoutRelay(ts), pad)
      ensures r == Overread ==>
                && OwnFits(ts)
                && var t := RelayTag(head[ETH_ALEN..2 * ETH_ALEN], OwnData(ts));
                && |Encode(WithoutRelay(ts))| + Copied(Little, t) < 65536
                && |Octets(t)| + |behind| >= Copied(Little, t)
                && |pad'| == |pad|
                && Frame() == Overrun(head, WithoutRelay(ts), t, behind, Copied(Little, t), pad')
    {
      hide Build, Encode, U16, Octets, Overrun, Copied;
      pad' := pad;
      ghost var f := Frame();
      Parts(head, ts, pad);
      assert f[CODE] == f[..PPPOE_HEAD][CODE];
      assert buf[CODE] == f[CODE] == head[CODE];
      if buf[CODE] != PADI && buf[CODE] != PADR {
        return Refused, pad;
      }
      var fits, own := TakeOwn(head, ts, pad);
      if !fits {
        return TooLong, pad;
      }
      Parts(head, WithoutRelay(ts), pad);
      SliceOfSlice(buf[..], 0, len, ETH_ALEN, 2 * ETH_ALEN);
      SliceOfSlice(Frame(), 0, PPPOE_HEAD, ETH_ALEN, 2 * ETH_ALEN);
      var t := RelayTag(buf[ETH_ALEN..2 * ETH_ALEN], own);
      OwnOctets(ts);
      LittleEndianOverreads(t);
      r, pad' := AddTag(host, t, behind, head, WithoutRelay(ts), pad);
    }

    method Address(dest: seq<byte>, ghost head: seq<byte>, ghost ts: seq<Tag>, ghost pad: seq<byte>)
      requires Valid() && |head| == PPPOE_HEAD && |Encode(ts)| < 65536 && |dest| == ETH_ALEN
      requires Frame() == Build(head, ts, pad)
      modifies buf
      ensures Frame() == Build(dest + head[ETH_ALEN..], ts, pad)
    {
      Parts(head, ts, pad);
      ghost var f := Frame();
      Store(buf, 0, dest);
      assert Frame() == dest + f[ETH_ALEN..];
      Readdressed(head, ts, pad, dest);
    }

    /** Takes the bridge's part out of its tag, and the whole tag if nothing else is in it. */
    method StripTag(at: nat, n: nat, ghost head: seq<byte>, ghost ts: seq<Tag>, ghost pad: seq<byte>)
      requires Valid() && |head| == PPPOE_HEAD && |Encode(ts)| < 65536 && Ours(ts)
      requires Frame() == Build(head, ts, pad)
      requires at == Offset(ts, First(ts, RELAY)) && n == |ts[First(ts, RELAY)].data|
      modifies this`len, buf
      ensures Valid()
      ensures |Encode(Stripped(ts))| < 65536 && Frame() == Build(head, Stripped(ts), pad)
    {
      hide Build, SetLength, Cut, Patch16, Encode, Octets, U16;
      if n > OVERHEAD {
        StrippedPart(head, ts, pad);
      } else {
        StrippedWhole(head, ts, pad);
      }
      var offset := if n > OVERHEAD then TAG_HDR else 0;
      RemoveOctets(at + offset, TAG_HDR + OVERHEAD - offset, |Encode(ts)|, head, ts, pad);
      if offset > 0 {
        Put16(at + 2, n - OVERHEAD);
      }
    }

    /** Checks a reply's relay tag and reads the client's address from it. */
    method Inspect(ghost head: seq<byte>, ghost ts: seq<Tag>, ghost pad: seq<byte>)
      returns (ok: bool, at: nat, n: nat, client: seq<byte>)
      requires Valid() && |head| == PPPOE_HEAD && |Encode(ts)| < 65536
      requires Frame() == Build(head, ts, pad)
      ensures ok <==> Ours(ts)
      ensures ok ==> at == Offset(ts, First(ts, RELAY)) && n == |ts[First(ts, RELAY)].data| && client == Target(ts)
    {
      ok, n, client := false, 0, [];
      var found: bool;
      found, at := FindIn(RELAY, head, ts, pad);
      if !found {
        return;
      }
      ghost var t := ts[First(ts, RELAY)];
      TagFields(head, ts, pad, First(ts, RELAY));
      assert buf[at + 2] == Frame()[at + 2] && buf[at + 3] == Frame()[at + 3];
      n := Word(buf[at + 2], buf[at + 3]);
      if n < OVERHEAD {
        return;
      }
      var data := buf[at + TAG_HDR..at + TAG_HDR + n];
      SliceOfSlice(buf[..], 0, len, at + TAG_HDR, at + TAG_HDR + n);
      assert data == t.data;
      MagicWord(data);
      ok := Word(data[0], data[1]) == MAGIC;
      client := data[2..OVERHEAD];
    }

    /** A discovery reply on its way back: accepted exactly when its first relay tag is one of ours;
        then it goes to the client named there, the bridge's part of the tag is gone, and the length
        fields are right. Otherwise the frame is untouched. */
    method LookupRelay(ghost head: seq<byte>, ghost ts: seq<Tag>, ghost pad: seq<byte>) returns (ok: bool)
      requires Valid() && |head| == PPPOE_HEAD && |Encode(ts)| < 65536
      requires Frame() == Build(head, ts, pad)
      requires head[CODE] == PADO || head[CODE] == PADS
      modifies this`len, buf
      ensures Valid()
      ensures ok <==> Ours(ts)
      ensures !ok ==> len == old(len) && buf[..] == old(buf[..])
      ensures ok ==>
                && |Encode(Stripped(ts))| < 65536
                && Frame() == Build(Target(ts) + head[ETH_ALEN..], Stripped(ts), pad)
      ensures ok <==> exists before, client, own, after :: Echoes(ts, before, client, own, after)
      ensures forall before, client, own, after | Echoes(ts, before, client, own, after) ::
                && |Encode(before + OwnTag(own) + after)| < 65536
                && Frame() == Build(client + head[ETH_ALEN..], before + OwnTag(own) + after, pad)
    {
      OursIff(ts);
      forall before, client, own, after | Echoes(ts, before, client, own, after)
        ensures Ours(ts) && Target(ts) == client && Stripped(ts) == before + OwnTag(own) + after
      {
        EchoIs(ts, before, client, own, after);
      }
      hide Ours, Target, Stripped, Echoes, OwnTag;
      var n, at, client;
      ok, at, n, client := Inspect(head, ts, pad);
      if ok {
        Address(client, head, ts, pad);
        StripTag(at, n, client + head[ETH_ALEN..], ts, pad);
      }
    }

    /** A reply that echoes the tag put into a request reaches the client that sent the request, with
        the client's own relay tag back in its place. */
    method ReplyReachesClient(ghost request: seq<Tag>, ghost client: seq<byte>, ghost head: seq<byte>,
                              ghost before: seq<Tag>, ghost after: seq<Tag>, ghost pad: seq<byte>)
      returns (ok: bool)
      requires Valid() && |head| == PPPOE_HEAD && (head[CODE] == PADO || head[CODE] == PADS)
      requires OwnFits(request) && |client| == ETH_ALEN && First(before, RELAY) == |before|
      requires |Encode(before + [PppoeTags.Relayed(request, client)[0]] + after)| < 65536
      requires Frame() == Build(head, before + [PppoeTags.Relayed(request, client)[0]] + after, pad)
      modifies this`len, buf
      ensures Valid() && ok
      ensures OwnRelay(request) != Some([]) ==>
                && |Encode(before + Own(request) + after)| < 65536
                && Frame() == Build(client + head[ETH_ALEN..], before + Own(request) + after, pad)
    {
      hide Build, Encode, First;
      RoundTrip(request, client, before, after);
      ok := LookupRelay(head, before + [PppoeTags.Relayed(request, client)[0]] + after, pad);
    }
  }

  lemma MagicWord(d: seq<byte>)
    requires |d| >= 2
    ensures Word(d[0], d[1]) == MAGIC <==> d[..2] == U16(MAGIC)
  {
    if Word(d[0], d[1]) == MAGIC {
      assert d[..2] == [d[0], d[1]];
    }
  }

  lemma OwnOctets(ts: seq<Tag>)
    ensures |Encode(Own(ts))| == if OwnRelay(ts) == None then 0 else TAG_HDR + |OwnData(ts)|
  {
    if OwnRelay(ts) != None {
      EncodeOne(ts[First(ts, RELAY)]);
    }
  }
}
