/** Information elements: the list the standard speaks about, the octets it is stored as, and
    the list operations the beacon editor is meant to perform. */
module Elements {
  import opened Bytes
  import opened Options
  import opened Seqs

  const SSID: byte := 0
  const SUPPORTED_RATES: byte := 1
  const TIM: byte := 5
  const CHANNEL_SWITCH: byte := 37

  datatype RawElement = Element(id: byte, body: seq<byte>)

  type Element = e: RawElement | |e.body| <= 255 witness Element(0, [])

  function Octets(e: Element): (s: seq<byte>)
    ensures |s| == |e.body| + 2
  {
    [e.id, |e.body|] + e.body
  }

  function Encode(es: seq<Element>): seq<byte> {
    if es == [] then [] else Octets(es[0]) + Encode(es[1..])
  }

  /** Reads octets back as elements; octets that are not a whole number of elements give none. */
  function Parse(s: seq<byte>): Option<seq<Element>> {
    if s == [] then Some([])
    else if |s| < 2 then None
    else
      var n: int := s[1];
      if |s| < 2 + n then None
      else
        match Parse(s[2 + n..])
        case None => None
        case Some(rest) => Some([Element(s[0], s[2..2 + n])] + rest)
  }

  lemma {:induction false} ParseEncode(es: seq<Element>)
    ensures Parse(Encode(es)) == Some(es)
  {
    if es != [] {
      var s := Encode(es);
      ParseEncode(es[1..]);
      var n: int := s[1];
      assert s[2 + n..] == Encode(es[1..]);
      assert s[2..2 + n] == es[0].body;
      assert [es[0]] + es[1..] == es;
    }
  }

  lemma {:induction false} EncodeParse(s: seq<byte>, es: seq<Element>)
    requires Parse(s) == Some(es)
    ensures Encode(es) == s
  {
    if s != [] {
      var n: int := s[1];
      var rest := s[2 + n..];
      assert Parse(rest) == Some(es[1..]);
      EncodeParse(rest, es[1..]);
      assert Octets(es[0]) == s[..2 + n];
    }
  }

  lemma {:induction false} EncodeSplit(a: seq<Element>, b: seq<Element>)
    ensures Encode(a + b) == Encode(a) + Encode(b)
  {
    if a == [] {
      assert a + b == b;
    } else {
      EncodeSplit(a[1..], b);
      HeadOfConcat(a, b);
      Assoc(Octets(a[0]), Encode(a[1..]), Encode(b));
    }
  }

  lemma EncodeParts(a: seq<Element>, b: seq<Element>, c: seq<Element>)
    ensures Encode(a + b + c) == Encode(a) + Encode(b) + Encode(c)
  {
    EncodeSplit(a + b, c);
    EncodeSplit(a, b);
  }

  lemma EncodeOne(e: Element)
    ensures Encode([e]) == Octets(e)
  {
    assert Encode([]) == [];
  }

  /** Where element `k` starts. */
  function Offset(es: seq<Element>, k: nat): nat
    requires k <= |es|
  {
    |Encode(es[..k])|
  }

  /** The octets around element `k`. */
  lemma SplitAt(es: seq<Element>, k: nat)
    requires k < |es|
    ensures Encode(es) == Encode(es[..k]) + Octets(es[k]) + Encode(es[k + 1..])
  {
    assert es == es[..k] + es[k..];
    EncodeSplit(es[..k], es[k..]);
    assert es[k..][1..] == es[k + 1..];
  }

  lemma OffsetStep(es: seq<Element>, k: nat)
    requires k < |es|
    ensures Offset(es, k + 1) == Offset(es, k) + 2 + |es[k].body| <= |Encode(es)|
    ensures Encode(es)[Offset(es, k)] == es[k].id
    ensures Encode(es)[Offset(es, k) + 1] == |es[k].body|
  {
    SplitAt(es, k);
    SplitAt(es[..k + 1], k);
    assert es[..k + 1][..k] == es[..k];
    assert Encode([]) == [];
  }

  lemma OffsetEnd(es: seq<Element>)
    ensures Offset(es, |es|) == |Encode(es)|
  {
    assert es[..|es|] == es;
  }

  /** An element starts, or the list ends, at octet `h`. */
  ghost predicate AtBoundary(es: seq<Element>, h: nat) {
    exists k | 0 <= k <= |es| :: Offset(es, k) == h
  }

  /** The walk from element to element comes by octet `p`. */
  predicate Reaches(s: seq<byte>, p: nat)
    decreases |s|
  {
    p == 0 ||
    (|s| >= 2 && var n: int := s[1]; 2 + n <= p && 2 + n <= |s| && Reaches(s[2 + n..], p - 2 - n))
  }

  /** Boundaries behind the first element are those of the rest. */
  lemma BoundaryTail(es: seq<Element>, h: nat)
    requires es != []
    ensures var n := |Octets(es[0])|;
            AtBoundary(es, h) <==> h == 0 || (h >= n && AtBoundary(es[1..], h - n))
  {
    var n, rest := |Octets(es[0])|, es[1..];
    assert Offset(es, 0) == 0;
    forall k | 0 < k <= |es|
      ensures Offset(es, k) == n + Offset(rest, k - 1)
    {
      assert es[..k][1..] == rest[..k - 1] && es[..k][0] == es[0];
    }
    if h >= n && AtBoundary(rest, h - n) {
      var k :| 0 <= k <= |rest| && Offset(rest, k) == h - n;
      assert Offset(es, k + 1) == h;
    }
  }

  /** The octets with something put in at octet `h`. */
  function Spliced(s: seq<byte>, h: nat, x: seq<byte>): seq<byte>
    requires h <= |s|
  {
    s[..h] + x + s[h..]
  }

  /** Octets put into an element list are read as an element of their own, rather than swallowed by
      the element they were put into, exactly if they were put at a boundary. */
  lemma {:induction false} SplicedIsReadIff(es: seq<Element>, h: nat, t: Element)
    requires h <= |Encode(es)|
    ensures Reaches(Spliced(Encode(es), h, Octets(t)), h) <==> AtBoundary(es, h)
    decreases |es|
  {
    if es == [] {
      assert Offset(es, 0) == 0;
    } else {
      var o, e := Octets(es[0]), Encode(es[1..]);
      BoundaryTail(es, h);
      if h >= |o| {
        SplicedIsReadIff(es[1..], h - |o|, t);
        SplicedTail(o, e, h, Octets(t));
      } else if h > 0 {
        SecondOctet(o, e, h, Octets(t));
      }
    }
  }

  lemma SplicedTail(o: seq<byte>, e: seq<byte>, h: nat, x: seq<byte>)
    requires |o| <= h <= |o| + |e|
    ensures Spliced(o + e, h, x) == o + Spliced(e, h - |o|, x)
  {
    assert (o + e)[..h] == o + e[..h - |o|] && (o + e)[h..] == e[h - |o|..];
  }

  lemma SecondOctet(o: seq<byte>, e: seq<byte>, h: nat, x: seq<byte>)
    requires 0 < h < |o| && |x| >= 1
    ensures var s := Spliced(o + e, h, x); |s| >= 2 && s[1] == if h == 1 then x[0] else o[1]
  {
  }

  // ------------------------------------------------------------ list operations

  /** The first element with this id, or the length of the list. */
  function First(es: seq<Element>, id: byte): (k: nat)
    ensures k <= |es|
    ensures forall j | 0 <= j < k :: es[j].id != id
    ensures k < |es| ==> es[k].id == id
  {
    if es == [] then 0 else if es[0].id == id then 0 else 1 + First(es[1..], id)
  }

  /** The first element whose id is not smaller, or the length of the list. */
  function Place(es: seq<Element>, id: byte): (k: nat)
    ensures k <= |es|
    ensures forall j | 0 <= j < k :: es[j].id < id
    ensures k < |es| ==> es[k].id >= id
  {
    if es == [] then 0 else if es[0].id >= id then 0 else 1 + Place(es[1..], id)
  }

  predicate Matches(es: seq<Element>, id: byte) {
    Place(es, id) < |es| && es[Place(es, id)].id == id
  }

  /** The editor can insert only behind an element that has a body, and replaces only an
      element that has a body. */
  predicate CanAdd(es: seq<Element>, id: byte) {
    var k := Place(es, id);
    if Matches(es, id) then es[k].body != [] else k > 0 && es[k - 1].body != []
  }

  /** The first element kept behind the place of an addition. */
  function AddEnd(es: seq<Element>, id: byte): (k: nat)
    ensures Place(es, id) <= k <= |es|
  {
    Place(es, id) + if Matches(es, id) then 1 else 0
  }

  function Added(es: seq<Element>, e: Element): seq<Element> {
    var k := Place(es, e.id);
    if !CanAdd(es, e.id) then es
    else if Matches(es, e.id) then es[k := e]
    else es[..k] + [e] + es[k..]
  }

  function Removed(es: seq<Element>, id: byte): seq<Element> {
    var k := First(es, id);
    if k < |es| && es[k].body != [] then es[..k] + es[k + 1..] else es
  }

  predicate Ascending(es: seq<Element>) {
    forall i, j | 0 <= i < j < |es| :: es[i].id < es[j].id
  }

  // ------------------------------------------------------------ what the operations promise

  lemma AddedParts(es: seq<Element>, e: Element)
    requires CanAdd(es, e.id)
    ensures Added(es, e) == es[..Place(es, e.id)] + [e] + es[AddEnd(es, e.id)..]
  {
  }

  lemma AddedKeepsAscending(es: seq<Element>, e: Element)
    requires Ascending(es)
    ensures Ascending(Added(es, e))
  {
  }

  lemma RemovedKeepsAscending(es: seq<Element>, id: byte)
    requires Ascending(es)
    ensures Ascending(Removed(es, id))
  {
  }

  /** Whatever was not the edited id is still there, in the same order. */
  function Without(es: seq<Element>, id: byte): seq<Element> {
    if es == [] then [] else (if es[0].id == id then [] else [es[0]]) + Without(es[1..], id)
  }

  lemma {:induction false} WithoutSplit(a: seq<Element>, b: seq<Element>, id: byte)
    ensures Without(a + b, id) == Without(a, id) + Without(b, id)
  {
    if a == [] {
      assert a + b == b;
    } else {
      WithoutSplit(a[1..], b, id);
      HeadOfConcat(a, b);
      Assoc(if a[0].id == id then [] else [a[0]], Without(a[1..], id), Without(b, id));
    }
  }

  /** Swapping a middle part that only holds the edited id for another such part. */
  lemma WithoutMiddle(a: seq<Element>, b: seq<Element>, c: seq<Element>, id: byte)
    requires Without(b, id) == []
    ensures Without(a + b + c, id) == Without(a, id) + Without(c, id)
  {
    WithoutSplit(a + b, c, id);
    WithoutSplit(a, b, id);
  }

  lemma AddTouchesOneId(es: seq<Element>, e: Element)
    ensures Without(Added(es, e), e.id) == Without(es, e.id)
  {
    var k := Place(es, e.id);
    if CanAdd(es, e.id) {
      var tail := if Matches(es, e.id) then es[k + 1..] else es[k..];
      var mid := if Matches(es, e.id) then [es[k]] else [];
      assert es == es[..k] + mid + tail;
      WithoutMiddle(es[..k], mid, tail, e.id);
      assert Added(es, e) == es[..k] + [e] + tail;
      WithoutMiddle(es[..k], [e], tail, e.id);
    }
  }

  lemma RemoveTouchesOneId(es: seq<Element>, id: byte)
    ensures Without(Removed(es, id), id) == Without(es, id)
  {
    var k := First(es, id);
    if k < |es| {
      assert es == es[..k] + [es[k]] + es[k + 1..];
      WithoutMiddle(es[..k], [es[k]], es[k + 1..], id);
      WithoutSplit(es[..k], es[k + 1..], id);
    }
  }

  /** Adding makes the new element the first of its id exactly when the editor can add. */
  lemma AddedIsFound(es: seq<Element>, e: Element)
    ensures CanAdd(es, e.id) ==>
              First(Added(es, e), e.id) == Place(es, e.id) < |Added(es, e)| &&
              Added(es, e)[Place(es, e.id)] == e
  {
    if CanAdd(es, e.id) {
      var as' := Added(es, e);
      assert as'[Place(es, e.id)] == e;
      assert forall j | 0 <= j < Place(es, e.id) :: as'[j] == es[j];
    }
  }

  /** Element `k` is the first whose id is not smaller; `k` is the length of the list if there is none. */
  ghost predicate FirstNotSmaller(es: seq<Element>, id: byte, k: nat) {
    k <= |es| && (forall j | 0 <= j < k :: es[j].id < id) && (k < |es| ==> es[k].id >= id)
  }

  /** What an addition amounts to: the element at that place is replaced if it has the id and a body; the new
      one is put in front of it if it has another id, or there is none, and the one before exists and has a
      body; in all other cases nothing happens. */
  ghost predicate AddsTo(es: seq<Element>, e: Element, k: nat, after: seq<Element>)
    requires k <= |es|
  {
    var same, before := k < |es| && es[k].id == e.id, k > 0 && es[k - 1].body != [];
    if same && es[k].body != [] then after == es[k := e]
    else if !same && before then after == es[..k] + [e] + es[k..]
    else after == es
  }

  lemma AddedIs(es: seq<Element>, e: Element, k: nat)
    requires FirstNotSmaller(es, e.id, k)
    ensures AddsTo(es, e, k, Added(es, e))
  {
    assert Place(es, e.id) == k;
  }

  /** Removal takes out the first element of the id if it has a body, and otherwise nothing. */
  lemma RemovedIs(es: seq<Element>, id: byte, k: nat)
    requires k <= |es| && (forall j | 0 <= j < k :: es[j].id != id) && (k < |es| ==> es[k].id == id)
    ensures Removed(es, id) == if k < |es| && |es[k].body| > 0 then es[..k] + es[k + 1..] else es
  {
    assert First(es, id) == k;
  }

  /** Removing undoes a fresh insertion exactly when the inserted element has a body. */
  lemma RemoveUndoesInsert(es: seq<Element>, e: Element)
    requires CanAdd(es, e.id) && !Matches(es, e.id)
    ensures Removed(Added(es, e), e.id) == es <==> e.body != []
    ensures e.body != [] ==> Encode(Removed(Added(es, e), e.id)) == Encode(es)
  {
    AddedIsFound(es, e);
    var k := Place(es, e.id);
    var more := Added(es, e);
    assert more[..k] + more[k + 1..] == es;
    assert |more| == |es| + 1;
  }
}
