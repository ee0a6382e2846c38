/** In-place editing of the beacon's information elements (`WLAN_BSSID_EX.IEs`). */
module Beacon {
  import opened Bytes
  import opened Elements
  import opened Seqs
  import Tim

  const MAX_IE_SZ: nat := 768
  const FIXED: nat := 12  // timestamp, beacon interval, capability

  /** The TIM element as a list element. */
  ghost function TimElement(bmp: seq<byte>, n1: nat, n2: nat): Element
    requires n1 <= n2 < |bmp| <= 251 && n1 % 2 == 0
  {
    Element(TIM, Tim.TimOctets(0, 1, bmp, n1, n2)[2..])
  }

  /** What one call contributes to the list: the element, or nothing once the length wraps. */
  ghost function TimPart(bmp: seq<byte>, n1: nat, n2: nat): seq<Element>
    requires n1 <= n2 < |bmp| <= 251 && n1 % 2 == 0
  {
    if n2 - n1 + 1 <= 250 then [TimElement(bmp, n1, n2)] else []
  }

  predicate HasTim(es: seq<Element>) {
    First(es, TIM) < |es| && es[First(es, TIM)].body != []
  }

  function LengthOf(es: seq<Element>, id: byte): nat {
    if First(es, id) < |es| then 2 + |es[First(es, id)].body| else 0
  }

  /** Where `update_BCNTIM` puts a TIM element if there is none: behind as many octets as SSID, supported
      rates and a DS parameter set have. */
  function TimHead(es: seq<Element>): nat { LengthOf(es, SSID) + LengthOf(es, SUPPORTED_RATES) + 3 }

  /** The elements `update_BCNTIM` replaces: the TIM element, or none at the place it computes. */
  ghost function TimCut(es: seq<Element>): (c: (nat, nat))
    requires HasTim(es) || AtBoundary(es, TimHead(es))
    ensures c.0 <= c.1 <= |es|
    ensures !HasTim(es) ==> c.0 == c.1 && Offset(es, c.0) == TimHead(es)
  {
    if HasTim(es) then (First(es, TIM), First(es, TIM) + 1)
    else
      var k :| 0 <= k <= |es| && Offset(es, k) == TimHead(es);
      (k, k)
  }

  /** The list `update_BCNTIM` produces. */
  ghost function TimUpdated(es: seq<Element>, bmp: seq<byte>, n1: nat, n2: nat): seq<Element>
    requires n1 <= n2 < |bmp| <= 251 && n1 % 2 == 0
    requires HasTim(es) || AtBoundary(es, TimHead(es))
  {
    es[..TimCut(es).0] + TimPart(bmp, n1, n2) + es[TimCut(es).1..]
  }

  /** Element `k` is the first of the id; `k` is the length of the list if there is none. */
  ghost predicate FirstAt(es: seq<Element>, id: byte, k: nat) {
    k <= |es| && (forall j | 0 <= j < k :: es[j].id != id) && (k < |es| ==> es[k].id == id)
  }

  /** The element at `k` is the first TIM element and has a body. */
  ghost predicate TimAt(es: seq<Element>, k: nat) {
    k < |es| && FirstAt(es, TIM, k) && |es[k].body| > 0
  }

  /** There is no TIM element, or the first one has no body, and the computed place is in front of element `k`. */
  ghost predicate TimGoes(es: seq<Element>, k: nat) {
    && k <= |es| && Offset(es, k) == TimHead(es)
    && exists i: nat :: FirstAt(es, TIM, i) && (i < |es| ==> es[i].body == [])
  }

  /** What `update_BCNTIM` amounts to: the TIM element at that place is replaced, or put in, or, once its length
      wraps, taken out; every other element stays. */
  lemma TimUpdatedIs(es: seq<Element>, bmp: seq<byte>, n1: nat, n2: nat, k: nat)
    requires n1 <= n2 < |bmp| <= 251 && n1 % 2 == 0 && (TimAt(es, k) || TimGoes(es, k))
    ensures HasTim(es) || AtBoundary(es, TimHead(es))
    ensures TimUpdated(es, bmp, n1, n2) ==
            es[..k] + (if n2 - n1 < 250 then [TimElement(bmp, n1, n2)] else [])
            + es[if TimAt(es, k) then k + 1 else k..]
  {
    if TimAt(es, k) {
      assert First(es, TIM) == k;
    } else {
      var i: nat :| FirstAt(es, TIM, i) && (i < |es| ==> es[i].body == []);
      assert First(es, TIM) == i;
      SamePlace(es, TimCut(es).0, k);
    }
  }

  lemma SamePlace(es: seq<Element>, j: nat, k: nat)
    requires j <= |es| && k <= |es| && Offset(es, j) == Offset(es, k)
    ensures j == k
  {
    if j < k {
      OffsetStep(es, j);
      OffsetsGrow(es, j + 1, k);
    } else if k < j {
      OffsetStep(es, k);
      OffsetsGrow(es, k + 1, j);
    }
  }

  /** Every station reads its own bit in the first TIM element of the new beacon, with DTIM count 0 and
      period 1. */
  lemma StationsReadTheirBits(es: seq<Element>, bmp: seq<byte>, n1: nat, n2: nat, k: nat, aid: nat)
    requires 0 < |bmp| <= 251 && Tim.Bounds(bmp, n1, n2) && n2 - n1 < 250
    requires (TimAt(es, k) || TimGoes(es, k)) && forall j | 0 <= j < k :: es[j].id != TIM
    ensures HasTim(es) || AtBoundary(es, TimHead(es))
    ensures var after := TimUpdated(es, bmp, n1, n2);
            && First(after, TIM) == k < |after|
            && var s := Octets(after[k]);
            && |s| >= 6 && s[2..4] == [0, 1]
            && (Tim.Indicated(s, aid) <==> Tim.IsSet(bmp, aid))
  {
    TimUpdatedIs(es, bmp, n1, n2, k);
    var t, after := TimElement(bmp, n1, n2), TimUpdated(es, bmp, n1, n2);
    assert after[k] == t;
    assert forall j | 0 <= j < k :: after[j] == es[j];
    Tim.TimIsLossless(0, 1, bmp, n1, n2, aid);
    assert Octets(t) == Tim.TimOctets(0, 1, bmp, n1, n2);
  }

  /** The computed place: the lengths of SSID and supported rates, each 0 if missing, and three octets. */
  lemma TimHeadIs(es: seq<Element>, i: nat, j: nat)
    requires FirstAt(es, SSID, i) && FirstAt(es, SUPPORTED_RATES, j)
    ensures TimHead(es) == (if i < |es| then |es[i].body| + 2 else 0) + (if j < |es| then |es[j].body| + 2 else 0) + 3
  {
    assert First(es, SSID) == i && First(es, SUPPORTED_RATES) == j;
  }

  /** A beacon starts with SSID and supported rates. */
  predicate UsualHead(es: seq<Element>) { |es| >= 2 && es[0].id == SSID && es[1].id == SUPPORTED_RATES }

  /** Behind SSID and supported rates the computed place is a boundary exactly if the next element has a
      body of one octet, as a DS parameter set has. */
  lemma PlaceIsBoundaryIff(es: seq<Element>)
    requires UsualHead(es)
    ensures AtBoundary(es, TimHead(es)) <==> |es| >= 3 && |es[2].body| == 1
  {
    assert First(es, SSID) == 0 && First(es, SUPPORTED_RATES) == 1;
    assert Offset(es, 0) == 0;
    hide Encode, Offset;
    OffsetStep(es, 0);
    OffsetStep(es, 1);
    OffsetsGrow(es, 0, 2);
    var h := TimHead(es);
    if |es| >= 3 {
      OffsetStep(es, 2);
      forall k | 0 <= k <= |es| && Offset(es, k) == h
        ensures k == 3
      {
        if k >= 4 {
          OffsetsGrow(es, 4, k);
          OffsetStep(es, 3);
        }
      }
    }
  }

  lemma {:induction false} OffsetsGrow(es: seq<Element>, j: nat, k: nat)
    requires j <= k <= |es|
    ensures Offset(es, j) <= Offset(es, k)
  {
    if j < k {
      OffsetsGrow(es, j, k - 1);
      OffsetStep(es, k - 1);
    }
  }

  /** So behind any SSID and rates, with any other element next, the TIM octets are put inside it and
      are not read as an element. */
  lemma MissingDsSwallowsTim(es: seq<Element>, t: Element)
    requires UsualHead(es) && |es| >= 3 && |es[2].body| != 1 && TimHead(es) <= |Encode(es)|
    ensures !Reaches(Spliced(Encode(es), TimHead(es), Octets(t)), TimHead(es))
  {
    PlaceIsBoundaryIff(es);
    SplicedIsReadIff(es, TimHead(es), t);
  }

  /** One octet of one body, seen in the encoding. */
  lemma PatchOctets(es: seq<Element>, k: nat, i: nat, v: byte)
    requires k < |es| && i < |es[k].body|
    ensures Offset(es, k) + 2 + i < |Encode(es)|
    ensures Encode(es[k := Element(es[k].id, es[k].body[i := v])]) == Encode(es)[Offset(es, k) + 2 + i := v]
  {
    var e: Element := Element(es[k].id, es[k].body[i := v]);
    var after := es[k := e];
    SplitAt(es, k);
    SplitAt(after, k);
    assert after[..k] == es[..k] && after[k + 1..] == es[k + 1..];
    assert Octets(e) == Octets(es[k])[2 + i := v];
    UpdateMiddle(Encode(es[..k]), Octets(es[k]), Encode(es[k + 1..]), 2 + i, v);
  }

  class Bss {
    const ies: array<byte>
    var length: nat
    ghost var es: seq<Element>

    constructor (fixed: seq<byte>, initial: seq<Element>)
      requires |fixed| == FIXED && FIXED + |Encode(initial)| <= MAX_IE_SZ
      ensures Valid() && fresh(ies)
      ensures es == initial && ies[..FIXED] == fixed && length == FIXED + |Encode(initial)|
    {
      ies := new byte[MAX_IE_SZ](_ => 0);
      length := FIXED + |Encode(initial)|;
      es := initial;
      new;
      Store(ies, 0, fixed + Encode(initial));
      assert ies[FIXED..length] == ies[..length][FIXED..];
    }

    /** The octets behind the fixed part are the encoding of `es`. */
    ghost predicate Valid()
      reads this, ies
    {
      && ies.Length == MAX_IE_SZ
      && FIXED <= length <= MAX_IE_SZ
      && ies[FIXED..length] == Encode(es)
    }

    /** Element `k` as the C code meets it at octet `pos`. */
    lemma At(k: nat, pos: nat)
      requires Valid() && k < |es| && pos == FIXED + Offset(es, k)
      ensures pos + 2 + |es[k].body| <= length
      ensures ies[pos] == es[k].id && ies[pos + 1] == |es[k].body|
      ensures Offset(es, k + 1) == Offset(es, k) + 2 + |es[k].body|
      ensures ies[FIXED..pos] == Encode(es[..k])
      ensures ies[pos + 2..pos + 2 + |es[k].body|] == es[k].body
      ensures ies[pos + 2 + |es[k].body|..length] == Encode(es[k + 1..])
    {
      OffsetStep(es, k);
      SplitAt(es, k);
      var all, a, b := ies[FIXED..length], pos - FIXED, pos - FIXED + 2 + |es[k].body|;
      Parts(Encode(es[..k]), Octets(es[k]), Encode(es[k + 1..]));
      assert ies[pos] == all[a] == all[a..b][0] && ies[pos + 1] == all[a + 1] == all[a..b][1];
      SliceOfSlice(ies[..], FIXED, length, 0, a);
      SliceOfSlice(ies[..], FIXED, length, a + 2, b);
      SliceOfSlice(ies[..], FIXED, length, b, |all|);
      assert all[a + 2..b] == all[a..b][2..];
    }

    /** `rtw_get_ie` from the end of the fixed part. */
    method GetIe(id: byte) returns (found: bool, pos: nat, len: nat)
      requires Valid()
      ensures found <==> First(es, id) < |es|
      ensures found ==> pos == FIXED + Offset(es, First(es, id)) && len == |es[First(es, id)].body|
    {
      pos, len := FIXED, 0;
      ghost var k := 0;
      OffsetEnd(es);
      while pos < length
        invariant k <= |es| && pos == FIXED + Offset(es, k) <= length
        invariant forall j | 0 <= j < k :: es[j].id != id
        invariant k == |es| <==> pos == length
        decreases length - pos
      {
        At(k, pos);
        if ies[pos] == id {
          return true, pos, ies[pos + 1];
        }
        var step: int := ies[pos + 1];
        pos, k := pos + step + 2, k + 1;
        if k < |es| {
          At(k, pos);
        }
      }
      found := false;
    }

    /** Writes `mid` over the octets from `dst` on and the saved remainder behind it. */
    method Splice(dst: nat, mid: seq<byte>, remainder: seq<byte>)
      requires ies.Length == MAX_IE_SZ && FIXED <= dst && dst + |mid| + |remainder| <= MAX_IE_SZ
      modifies this`length, ies
      ensures ies[..FIXED] == old(ies[..FIXED])
      ensures length == dst + |mid| + |remainder|
      ensures ies[FIXED..length] == old(ies[FIXED..dst]) + mid + remainder
    {
      Store(ies, dst, mid);
      assert ies[..dst] == old(ies[..dst]);
      assert ies[dst..dst + |mid|] == mid;
      ghost var before := ies[..];
      Store(ies, dst + |mid|, remainder);
      length := dst + |mid| + |remainder|;
      assert ies[..dst + |mid|] == before[..dst + |mid|];
      assert ies[FIXED..length] == ies[FIXED..dst] + ies[dst..dst + |mid|] + ies[dst + |mid|..length];
      assert ies[FIXED..dst] == ies[..dst][FIXED..];
    }

    /** The search loop of `rtw_add_bcn_ie`: stops at the first id that is not smaller, with `p`
        and `ielen` on the matching element or else on the one before it. */
    method SearchPlace(index: byte) returns (found: bool, seen: bool, p: nat, ielen: nat)
      requires Valid()
      ensures found <==> Matches(es, index)
      ensures seen <==> found || Place(es, index) > 0
      ensures seen ==>
                var k := if found then Place(es, index) else Place(es, index) - 1;
                p == FIXED + Offset(es, k) && ielen == |es[k].body|
    {
      found, seen, p, ielen := false, false, 0, 0;
      var i := FIXED;
      ghost var k := 0;
      OffsetEnd(es);
      while i < length
        invariant k <= |es| && i == FIXED + Offset(es, k) <= length
        invariant forall j | 0 <= j < k :: es[j].id < index
        invariant k == |es| <==> i == length
        invariant seen <==> k > 0
        invariant k > 0 ==> p == FIXED + Offset(es, k - 1) && ielen == |es[k - 1].body|
        invariant !found
        decreases length - i
      {
        At(k, i);
        if ies[i] > index {
          break;
        } else if ies[i] == index {
          p, ielen, found, seen := i, ies[i + 1], true, true;
          break;
        }
        p, ielen, seen := i, ies[i + 1], true;
        i, k := i + ielen + 2, k + 1;
        if k < |es| {
          At(k, i);
        }
      }
      PlaceIs(es, index, k);
    }

    /** The octets up to the end of element `k`. */
    lemma UpTo(k: nat, pos: nat)
      requires Valid() && k < |es| && pos == FIXED + Offset(es, k)
      ensures pos + 2 + |es[k].body| <= length
      ensures ies[FIXED..pos + 2 + |es[k].body|] == Encode(es[..k + 1])
      ensures ies[pos + 2 + |es[k].body|..length] == Encode(es[k + 1..])
    {
      At(k, pos);
      var n := pos + 2 + |es[k].body| - FIXED;
      assert es == es[..k + 1] + es[k + 1..];
      EncodeSplit(es[..k + 1], es[k + 1..]);
      SliceOfSlice(ies[..], FIXED, length, 0, n);
    }

    /** `rtw_add_bcn_ie`. */
    method AddBcnIe(index: byte, data: seq<byte>)
      requires Valid() && |data| <= 255
      requires FIXED + |Encode(Added(es, Element(index, data)))| <= MAX_IE_SZ
      modifies this, ies
      ensures Valid()
      ensures es == Added(old(es), Element(index, data))
      ensures exists k :: FirstNotSmaller(old(es), index, k)
      ensures forall k | FirstNotSmaller(old(es), index, k) :: AddsTo(old(es), Element(index, data), k, es)
      ensures ies[..FIXED] == old(ies[..FIXED])
    {
      assert FirstNotSmaller(es, index, Place(es, index));
      forall k | FirstNotSmaller(es, index, k)
        ensures AddsTo(es, Element(index, data), k, Added(es, Element(index, data)))
      {
        AddedIs(es, Element(index, data), k);
      }
      hide AddsTo, FirstNotSmaller;
      var room, dst, from := AddRoom(index);
      if !room {
        return;
      }
      ghost var e: Element, k := Element(index, data), Place(es, index);
      AddedParts(es, e);
      EncodeParts(es[..k], [e], es[AddEnd(es, index)..]);
      EncodeOne(e);
      var remainder := ies[from..length];
      Splice(dst, [index, |data|] + data, remainder);
      es := Added(es, e);
    }

    /** Where the new element goes and where the remainder starts, if there is a predecessor (or a
        match) with a body. */
    method AddRoom(index: byte) returns (room: bool, dst: nat, from: nat)
      requires Valid()
      ensures room <==> CanAdd(es, index)
      ensures room ==>
                && FIXED <= dst <= from <= length
                && ies[FIXED..dst] == Encode(es[..Place(es, index)])
                && ies[from..length] == Encode(es[AddEnd(es, index)..])
    {
      hide Encode;
      var found, seen, p, ielen := SearchPlace(index);
      room, dst, from := seen && ielen > 0, 0, 0;
      if room {
        from := p + ielen + 2;
        dst := if found then p else from;
        if found {
          At(Place(es, index), p);
        } else {
          UpTo(Place(es, index) - 1, p);
        }
      }
    }

    /** `rtw_remove_bcn_ie`. */
    method RemoveBcnIe(index: byte)
      requires Valid()
      modifies this, ies
      ensures Valid()
      ensures es == Removed(old(es), index)
      ensures ies[..FIXED] == old(ies[..FIXED])
    {
      var found, p, ielen := GetIe(index);
      if !found || ielen == 0 {
        return;
      }
      ghost var k := First(es, index);
      At(k, p);
      var remainder := ies[p + ielen + 2..length];
      Splice(p, [], remainder);
      es := es[..k] + es[k + 1..];
      EncodeSplit(old(es)[..k], old(es)[k + 1..]);
    }

    /** Overwrites one octet of an element body, as `update_csa_ie` and
        `update_bcn_erpinfo_ie` do through a pointer into the buffer. */
    method Patch(pos: nat, ghost k: nat, i: nat, v: byte)
      requires Valid() && k < |es| && pos == FIXED + Offset(es, k) && i < |es[k].body|
      modifies this, ies
      ensures Valid()
      ensures es == old(es)[k := Element(old(es)[k].id, old(es)[k].body[i := v])]
      ensures length == old(length) && ies[..FIXED] == old(ies[..FIXED])
    {
      At(k, pos);
      ghost var e: Element := Element(es[k].id, es[k].body[i := v]);
      PatchOctets(es, k, i, v);
      ies[pos + 2 + i] := v;
      assert ies[FIXED..length] == old(ies[FIXED..length])[pos + 2 + i - FIXED := v];
      es := es[k := e];
    }

    /** `update_BCNTIM`. Where it replaces the TIM element, or where the place it computes for a new one
        is a boundary, the list gets the element and keeps the others; elsewhere the octets are put in
        all the same. A TIM element of 251 bitmap octets is reported with length 0, so the saved
        remainder lands on top of it and the element is lost. */
    method UpdateBcnTim(bmp: seq<byte>) returns (ghost n1: nat, ghost n2: nat)
      requires Valid() && 0 < |bmp| <= 251
      requires length + 5 + |bmp| <= MAX_IE_SZ
      requires !HasTim(es) ==> FIXED + TimHead(es) + 5 + |bmp| <= MAX_IE_SZ
      modifies this, ies
      ensures Tim.Bounds(bmp, n1, n2)
      ensures ies[..FIXED] == old(ies[..FIXED])
      ensures HasTim(old(es)) || AtBoundary(old(es), TimHead(old(es))) ==>
                Valid() && es == TimUpdated(old(es), bmp, n1, n2)
      ensures !HasTim(old(es)) ==>
                var h, e, x := TimHead(old(es)), Encode(old(es)), Encode(TimPart(bmp, n1, n2));
                && FIXED <= length <= MAX_IE_SZ && length == old(length) + |x|
                && (h <= |e| ==> ies[FIXED..length] == Spliced(e, h, x))
                && (h > |e| ==> ies[FIXED..length] == e + (old(ies[..])[old(length)..FIXED + h] + x)[..|x|])
    {
      var found, p, ielen := GetIe(TIM);
      if found && ielen > 0 {
        n1, n2 := ReplaceTim(bmp, p, ielen);
      } else {
        n1, n2 := InsertTim(bmp);
      }
    }

    method ReplaceTim(bmp: seq<byte>, p: nat, ielen: nat) returns (ghost n1: nat, ghost n2: nat)
      requires Valid() && 0 < |bmp| <= 251 && length + 5 + |bmp| <= MAX_IE_SZ
      requires HasTim(es) && p == FIXED + Offset(es, First(es, TIM)) && ielen == |es[First(es, TIM)].body|
      modifies this, ies
      ensures Valid() && Tim.Bounds(bmp, n1, n2) && es == TimUpdated(old(es), bmp, n1, n2)
      ensures ies[..FIXED] == old(ies[..FIXED])
    {
      hide Encode, TimPart;
      ghost var k := First(es, TIM);
      At(k, p);
      n1, n2 := PutAndSplice(bmp, p, ies[p + ielen + 2..length]);
      EncodeParts(es[..k], TimPart(bmp, n1, n2), es[k + 1..]);
      es := TimUpdated(es, bmp, n1, n2);
    }

    /** The TIM element at `dst`, then the saved remainder. */
    method PutAndSplice(bmp: seq<byte>, dst: nat, remainder: seq<byte>) returns (ghost n1: nat, ghost n2: nat)
      requires ies.Length == MAX_IE_SZ && 0 < |bmp| <= 251
      requires FIXED <= dst && dst + 5 + |bmp| + |remainder| <= MAX_IE_SZ
      modifies this`length, ies
      ensures Tim.Bounds(bmp, n1, n2)
      ensures ies[..FIXED] == old(ies[..FIXED])
      ensures length == dst + |Encode(TimPart(bmp, n1, n2))| + |remainder| <= MAX_IE_SZ
      ensures ies[FIXED..length] == old(ies[FIXED..dst]) + Encode(TimPart(bmp, n1, n2)) + remainder
    {
      hide Encode, TimPart;
      ghost var part;
      var ret: int;
      ret, n1, n2, part := PutTim(bmp, dst);
      ghost var head := ies[FIXED..dst + ret];
      Splice(dst + ret, [], remainder);
      assert head + [] == head;
    }

    /** A new TIM element at the computed place; with a place behind the end nothing is left to save. */
    method InsertTim(bmp: seq<byte>) returns (ghost n1: nat, ghost n2: nat)
      requires Valid() && 0 < |bmp| <= 251 && !HasTim(es)
      requires length + 5 + |bmp| <= MAX_IE_SZ && FIXED + TimHead(es) + 5 + |bmp| <= MAX_IE_SZ
      modifies this, ies
      ensures Tim.Bounds(bmp, n1, n2)
      ensures ies[..FIXED] == old(ies[..FIXED])
      ensures AtBoundary(old(es), TimHead(old(es))) ==> Valid() && es == TimUpdated(old(es), bmp, n1, n2)
      ensures var h, e, x := TimHead(old(es)), Encode(old(es)), Encode(TimPart(bmp, n1, n2));
              && FIXED <= length <= MAX_IE_SZ && length == old(length) + |x|
              && (h <= |e| ==> ies[FIXED..length] == Spliced(e, h, x))
              && (h > |e| ==> ies[FIXED..length] == e + (old(ies[..])[old(length)..FIXED + h] + x)[..|x|])
    {
      hide Encode, TimPart, HasTim, TimHead, Offset;
      var dst := HeadOffset();
      ghost var h, e := TimHead(es), ies[FIXED..length];
      if dst <= length {
        SliceOfSlice(ies[..], FIXED, length, 0, h);
        SliceOfSlice(ies[..], FIXED, length, h, length - FIXED);
        n1, n2 := PutAndSplice(bmp, dst, ies[dst..length]);
        if AtBoundary(es, h) {
          SplicedAtBoundary(es, TimCut(es).0, TimPart(bmp, n1, n2));
          es := TimUpdated(es, bmp, n1, n2);
        }
      } else {
        NotBehindEnd(es, h);
        n1, n2 := PutTimBehind(bmp, dst);
      }
    }

    /** The place computed from the lengths of SSID and supported rates. */
    method HeadOffset() returns (offset: nat)
      requires Valid()
      ensures offset == FIXED + TimHead(es)
    {
      offset := FIXED;
      var found, at, len := GetIe(SSID);
      if found {
        offset := offset + len + 2;
      }
      found, at, len := GetIe(SUPPORTED_RATES);
      if found {
        offset := offset + len + 2;
      }
      offset := offset + 3;
    }

    /** The element written behind the end: the length grows by that of the element, but from the old end
        on, so the octets in between are taken in and as many of the element are left out. */
    method PutTimBehind(bmp: seq<byte>, dst: nat) returns (ghost n1: nat, ghost n2: nat)
      requires ies.Length == MAX_IE_SZ && FIXED <= length < dst
      requires 0 < |bmp| <= 251 && dst + 5 + |bmp| <= MAX_IE_SZ
      modifies this`length, ies
      ensures Tim.Bounds(bmp, n1, n2)
      ensures ies[..FIXED] == old(ies[..FIXED])
      ensures var x := Encode(TimPart(bmp, n1, n2));
              && length == old(length) + |x| <= MAX_IE_SZ
              && ies[FIXED..length] == old(ies[FIXED..length]) + (old(ies[..])[old(length)..dst] + x)[..|x|]
    {
      hide Encode, TimPart;
      ghost var part;
      var ret: int;
      ghost var was := ies[..];
      ret, n1, n2, part := PutTim(bmp, dst);
      ghost var x := Encode(part);
      assert ies[FIXED..dst + ret] == was[FIXED..dst] + x;
      SliceOfSlice(ies[..], FIXED, dst + ret, 0, length + |x| - FIXED);
      TakenIn(was[FIXED..dst], length - FIXED, x);
      SliceOfSlice(was, FIXED, dst, 0, length - FIXED);
      SliceOfSlice(was, FIXED, dst, length - FIXED, dst - FIXED);
      length := length + ret;
    }

    /** Writes the TIM element at `dst` and says which octets the returned length keeps. */
    method PutTim(bmp: seq<byte>, dst: nat)
      returns (ret: byte, ghost n1: nat, ghost n2: nat, ghost mid: seq<Element>)
      requires ies.Length == MAX_IE_SZ && 0 < |bmp| <= 251
      requires FIXED <= dst && dst + 5 + |bmp| <= MAX_IE_SZ
      modifies ies
      ensures Tim.Bounds(bmp, n1, n2)
      ensures mid == TimPart(bmp, n1, n2)
      ensures ret <= 5 + |bmp| && dst + ret <= MAX_IE_SZ
      ensures ies[..FIXED] == old(ies[..FIXED])
      ensures ies[FIXED..dst + ret] == old(ies[FIXED..dst]) + Encode(mid)
    {
      ret, n1, n2 := Tim.SetTimIe(0, 1, bmp, ies, dst);
      ghost var s := Tim.TimOctets(0, 1, bmp, n1, n2);
      Tim.ReturnedLength(0, 1, bmp, n1, n2);
      mid := TimPart(bmp, n1, n2);
      assert s[..ret] == Encode(mid) by {
        if mid != [] {
          assert Encode(mid) == Octets(mid[0]) + Encode([]);
          assert s[..ret] == Octets(mid[0]);
        }
      }
      assert ies[..dst + ret] == old(ies[..dst]) + s[..ret];
    }
  }

  /** Putting elements in at a boundary puts them into the list. */
  lemma SplicedAtBoundary(es: seq<Element>, k: nat, part: seq<Element>)
    requires k <= |es|
    ensures Offset(es, k) <= |Encode(es)|
    ensures Spliced(Encode(es), Offset(es, k), Encode(part)) == Encode(es[..k] + part + es[k..])
  {
    assert es == es[..k] + es[k..];
    EncodeSplit(es[..k], es[k..]);
    EncodeParts(es[..k], part, es[k..]);
    Parts([], Encode(es[..k]), Encode(es[k..]));
    assert [] + Encode(es[..k]) == Encode(es[..k]);
  }

  lemma TakenIn(s: seq<byte>, n: nat, x: seq<byte>)
    requires n <= |s|
    ensures (s + x)[..n + |x|] == s[..n] + (s[n..] + x)[..|x|]
  {
    assert s + x == s[..n] + (s[n..] + x);
  }

  lemma NotBehindEnd(es: seq<Element>, h: nat)
    requires h > |Encode(es)|
    ensures !AtBoundary(es, h)
  {
    forall k | 0 <= k <= |es|
      ensures Offset(es, k) != h
    {
      SplicedAtBoundary(es, k, []);
    }
  }

  lemma {:induction false} PlaceIs(es: seq<Element>, id: byte, k: nat)
    requires k <= |es|
    requires forall j | 0 <= j < k :: es[j].id < id
    requires k < |es| ==> es[k].id >= id
    ensures Place(es, id) == k
  {
  }
}
