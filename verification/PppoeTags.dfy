/** PPPoE discovery frames as lists of tags (RFC 2516), and what the bridge does to the list when
    it relays a discovery exchange (RFC 2516, Appendix A, tag Relay-Session-Id). */
module PppoeTags {
  import opened Bytes
  import opened Options
  import opened Seqs

  const RELAY: nat := 0x0110
  const MAGIC: nat := 0x8186
  const ETH_ALEN: nat := 6
  const OVERHEAD: nat := 8  // magic and client address
  const TAG_HDR: nat := 4
  const TAG_BUF: nat := 40  // the scratch buffer for the new tag
  const PPPOE_HEAD: nat := 18  // Ethernet and PPPoE header up to the length field
  const TAGS: nat := 20

  datatype RawTag = Tag(kind: nat, data: seq<byte>)

  type Tag = t: RawTag | t.kind < 65536 && |t.data| < 65536 witness Tag(0, [])

  function U16(v: nat): (s: seq<byte>)
    requires v < 65536
    ensures |s| == 2
  {
    [v / 256, v % 256]
  }

  function Octets(t: Tag): (s: seq<byte>)
    ensures |s| == TAG_HDR + |t.data|
  {
    U16(t.kind) + U16(|t.data|) + t.data
  }

  function Encode(ts: seq<Tag>): seq<byte> {
    if ts == [] then [] else Octets(ts[0]) + Encode(ts[1..])
  }

  lemma {:induction false} EncodeSplit(a: seq<Tag>, b: seq<Tag>)
    ensures Encode(a + b) == Encode(a) + Encode(b)
  {
    if a == [] {
      assert a + b == b;
    } else {
      EncodeSplit(a[1..], b);
      HeadOfConcat(a, b);
      Assoc(Octets(a[0]), Encode(a[1..]), Encode(b));
    }
  }

  lemma EncodeOne(t: Tag)
    ensures Encode([t]) == Octets(t)
  {
    assert Encode([]) == [];
  }

  lemma SplitAt(ts: seq<Tag>, k: nat)
    requires k < |ts|
    ensures Encode(ts) == Encode(ts[..k]) + Octets(ts[k]) + Encode(ts[k + 1..])
  {
    assert ts == ts[..k] + ts[k..];
    EncodeSplit(ts[..k], ts[k..]);
    assert ts[k..][1..] == ts[k + 1..];
  }

  /** A discovery frame: header, length field, tags, and whatever pads the frame. */
  function Build(head: seq<byte>, ts: seq<Tag>, pad: seq<byte>): (f: seq<byte>)
    requires |head| == PPPOE_HEAD && |Encode(ts)| < 65536
    ensures |f| == TAGS + |Encode(ts)| + |pad|
  {
    head + U16(|Encode(ts)|) + Encode(ts) + pad
  }

  /** The first tag of a kind, or the length of the list. */
  function First(ts: seq<Tag>, kind: nat): (k: nat)
    ensures k <= |ts|
    ensures forall j | 0 <= j < k :: ts[j].kind != kind
    ensures k < |ts| ==> ts[k].kind == kind
  {
    if ts == [] then 0 else if ts[0].kind == kind then 0 else 1 + First(ts[1..], kind)
  }

  // ------------------------------------------------------------ the way out

  /** The client's own relay tag, if any. */
  function OwnRelay(ts: seq<Tag>): Option<seq<byte>> {
    if First(ts, RELAY) < |ts| then Some(ts[First(ts, RELAY)].data) else None
  }

  function OwnData(ts: seq<Tag>): seq<byte> {
    match OwnRelay(ts)
    case Some(d) => d
    case None => []
  }

  /** The tag the bridge puts in front: magic, client address, the client's own relay data. */
  function RelayTag(client: seq<byte>, own: seq<byte>): Tag
    requires |client| == ETH_ALEN && |own| + OVERHEAD < 65536
  {
    Tag(RELAY, U16(MAGIC) + client + own)
  }

  function WithoutRelay(ts: seq<Tag>): seq<Tag> {
    var k := First(ts, RELAY);
    if k < |ts| then ts[..k] + ts[k + 1..] else ts
  }

  predicate OwnFits(ts: seq<Tag>) {
    |OwnData(ts)| + TAG_HDR + OVERHEAD <= TAG_BUF
  }

  /** The tag list of a relayed request. */
  function Relayed(ts: seq<Tag>, client: seq<byte>): seq<Tag>
    requires OwnFits(ts) && |client| == ETH_ALEN
  {
    [RelayTag(client, OwnData(ts))] + WithoutRelay(ts)
  }

  ghost predicate NoRelay(ts: seq<Tag>) { forall t | t in ts :: t.kind != RELAY }

  lemma FirstRelay(before: seq<Tag>, t: Tag, after: seq<Tag>)
    requires NoRelay(before) && t.kind == RELAY
    ensures var ts := before + [t] + after;
            && First(ts, RELAY) == |before| && ts[|before|] == t
            && ts[..|before|] == before && ts[|before| + 1..] == after
  {
    var ts := before + [t] + after;
    assert ts[|before|] == t;
    assert forall j | 0 <= j < |before| :: ts[j] == before[j] && before[j] in before;
  }

  /** A relayed request: the bridge's tag in front, holding the client's first relay tag if it has one, and
      the other tags in their order. The client's relay tag fits up to 28 octets. */
  lemma RelayedIs(before: seq<Tag>, own: seq<byte>, after: seq<Tag>, client: seq<byte>)
    requires NoRelay(before) && |own| < 65536 && |client| == ETH_ALEN
    ensures var ts := before + [Tag(RELAY, own)] + after;
            && (OwnFits(ts) <==> |own| <= 28)
            && (|own| <= 28 ==> Relayed(ts, client) == [RelayTag(client, own)] + (before + after))
    ensures OwnFits(before) && Relayed(before, client) == [RelayTag(client, [])] + before
  {
    FirstRelay(before, Tag(RELAY, own), after);
  }

  // ------------------------------------------------------------ the way back

  /** The relay tag of a reply is one this bridge made. */
  predicate Ours(ts: seq<Tag>) {
    var k := First(ts, RELAY);
    k < |ts| && |ts[k].data| >= OVERHEAD && ts[k].data[..2] == U16(MAGIC)
  }

  /** What is left of the relay tag once the bridge's part is taken off. */
  function Rest(t: Tag): seq<Tag>
    requires |t.data| >= OVERHEAD
  {
    if |t.data| > OVERHEAD then [Tag(RELAY, t.data[OVERHEAD..])] else []
  }

  function Stripped(ts: seq<Tag>): seq<Tag>
    requires Ours(ts)
  {
    var k := First(ts, RELAY);
    ts[..k] + Rest(ts[k]) + ts[k + 1..]
  }

  function Target(ts: seq<Tag>): seq<byte>
    requires Ours(ts)
  {
    ts[First(ts, RELAY)].data[2..OVERHEAD]
  }

  // ------------------------------------------------------------ the round trip

  /** The client's own relay tag as a list. */
  function Own(ts: seq<Tag>): (own: seq<Tag>)
    ensures own == [] <==> OwnRelay(ts) == None
    ensures own != [] ==> own == [Tag(RELAY, OwnData(ts))]
  {
    var k := First(ts, RELAY);
    if k < |ts| then [ts[k]] else []
  }

  /** A reply that echoes the bridge's tag anywhere goes to the client that sent the request, and
      carries exactly the client's own relay tag in its place, if and only if that tag was absent
      or not empty. */
  lemma RoundTrip(request: seq<Tag>, client: seq<byte>, before: seq<Tag>, after: seq<Tag>)
    requires OwnFits(request) && |client| == ETH_ALEN
    requires First(before, RELAY) == |before|
    ensures var reply := before + [Relayed(request, client)[0]] + after;
            && Ours(reply)
            && Target(reply) == client
            && (Stripped(reply) == before + Own(request) + after <==> OwnRelay(request) != Some([]))
  {
    var tag := RelayTag(client, OwnData(request));
    RelayTagParts(client, OwnData(request));
    EchoIsOurs(before, tag, after);
    if OwnRelay(request) == Some([]) {
      assert |before + Rest(tag) + after| < |before + Own(request) + after|;
    } else {
      assert Rest(tag) == Own(request);
    }
  }

  /** The first relay tag of a reply is one the bridge made for this client, around this relay data. */
  ghost predicate Echoes(ts: seq<Tag>, before: seq<Tag>, client: seq<byte>, own: seq<byte>, after: seq<Tag>) {
    && |client| == ETH_ALEN && |own| + OVERHEAD < 65536 && NoRelay(before)
    && ts == before + [RelayTag(client, own)] + after
  }

  /** Relay data as a tag of its own; empty data give none. */
  function OwnTag(own: seq<byte>): seq<Tag>
    requires |own| < 65536
  {
    if own == [] then [] else [Tag(RELAY, own)]
  }

  /** A reply is accepted only if its first relay tag is one the bridge could have made: another relay's
      tag is not. */
  lemma OursIff(ts: seq<Tag>)
    ensures Ours(ts) <==> exists before, client, own, after :: Echoes(ts, before, client, own, after)
  {
    if Ours(ts) {
      var k := First(ts, RELAY);
      var d := ts[k].data;
      assert d == U16(MAGIC) + d[2..OVERHEAD] + d[OVERHEAD..];
      forall t | t in ts[..k] ensures t.kind != RELAY {
        var j :| 0 <= j < k && ts[j] == t;
      }
      assert ts == ts[..k] + [ts[k]] + ts[k + 1..];
      assert Echoes(ts, ts[..k], d[2..OVERHEAD], d[OVERHEAD..], ts[k + 1..]);
    }
    if before, client, own, after :| Echoes(ts, before, client, own, after) {
      EchoIs(ts, before, client, own, after);
    }
  }

  /** ... and then it goes to that client with that relay data. */
  lemma EchoIs(ts: seq<Tag>, before: seq<Tag>, client: seq<byte>, own: seq<byte>, after: seq<Tag>)
    requires Echoes(ts, before, client, own, after)
    ensures Ours(ts) && Target(ts) == client && Stripped(ts) == before + OwnTag(own) + after
  {
    FirstRelay(before, RelayTag(client, own), after);
    RelayTagParts(client, own);
  }

  lemma RelayTagParts(client: seq<byte>, own: seq<byte>)
    requires |client| == ETH_ALEN && |own| + OVERHEAD < 65536
    ensures var d := RelayTag(client, own).data;
            d[..2] == U16(MAGIC) && d[2..OVERHEAD] == client && d[OVERHEAD..] == own
  {
  }

  /** The bridge finds its own tag in a reply and cuts it out of the place where it stood. */
  lemma EchoIsOurs(before: seq<Tag>, t: Tag, after: seq<Tag>)
    requires First(before, RELAY) == |before| && t.kind == RELAY
    requires |t.data| >= OVERHEAD && t.data[..2] == U16(MAGIC)
    ensures var reply := before + [t] + after;
            && First(reply, RELAY) == |before|
            && Ours(reply)
            && Target(reply) == t.data[2..OVERHEAD]
            && Stripped(reply) == before + Rest(t) + after
  {
    forall u | u in before ensures u.kind != RELAY {
      var j :| 0 <= j < |before| && before[j] == u;
    }
    hide First;
    FirstRelay(before, t, after);
  }
}
