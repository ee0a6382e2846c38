/** The channel switch announcement countdown (`update_csa_ie`), one call per beacon. */
module ChannelSwitch {
  import opened Bytes
  import opened Elements
  import opened Seqs
  import opened Beacon

  datatype Phase = Idle | SwStart | SwDone

  const CSA_IE_LEN: nat := 3

  /** Everything one update looks at and changes. */
  datatype Csa = Csa(phase: Phase, chan: byte, mode: byte, count: byte, es: seq<Element>)

  predicate HasCsa(es: seq<Element>) { First(es, CHANNEL_SWITCH) < |es| }

  function CsaElement(chan: byte, mode: byte, count: byte): Element {
    Element(CHANNEL_SWITCH, [mode, chan, count])
  }

  /** One call of `update_csa_ie`. */
  function Next(c: Csa): Csa {
    if c.phase != SwStart then c
    else
      var k := First(c.es, CHANNEL_SWITCH);
      var left := if c.count > 0 then c.count - 1 else 0;
      if k == |c.es| then
        if c.count > 0 then
          c.(es := Added(c.es, CsaElement(c.chan, c.mode, c.count)), count := left)
        else if c.chan > 0 then c.(phase := SwDone, count := left)
        else c
      else if |c.es[k].body| == CSA_IE_LEN then
        if c.count > 0 then
          var shown: Element := Element(CHANNEL_SWITCH, c.es[k].body[2 := c.count]);
          c.(es := c.es[k := shown], count := left)
        else
          c.(es := Removed(c.es, CHANNEL_SWITCH), phase := SwDone, count := left)
      else
        c.(count := left)
  }

  /** Whether the call tells its caller to send a new beacon. */
  predicate Changes(c: Csa) {
    var k := First(c.es, CHANNEL_SWITCH);
    c.phase == SwStart && if k == |c.es| then c.count > 0 else |c.es[k].body| == CSA_IE_LEN
  }

  function After(c: Csa, updates: nat): Csa {
    if updates == 0 then c else Next(After(c, updates - 1))
  }

  class Ap {
    const bss: Bss
    var phase: Phase
    var chan: byte
    var mode: byte
    var count: byte

    constructor (bss: Bss, chan: byte, mode: byte, count: byte)
      requires bss.Valid()
      ensures Valid() && this.bss == bss
      ensures View() == Csa(SwStart, chan, mode, count, bss.es)
    {
      this.bss, this.chan, this.mode, this.count := bss, chan, mode, count;
      phase := SwStart;
    }

    ghost predicate Valid()
      reads this, bss, bss.ies
    {
      bss.Valid()
    }

    ghost function View(): Csa
      reads this, bss
    {
      Csa(phase, chan, mode, count, bss.es)
    }

    method UpdateCsaIe() returns (update: bool)
      requires Valid() && FIXED + |Encode(Next(View()).es)| <= MAX_IE_SZ
      modifies this, bss, bss.ies
      ensures Valid() && View() == Next(old(View()))
      ensures update <==> Changes(old(View()))
      ensures bss.ies[..FIXED] == old(bss.ies[..FIXED])
    {
      update := false;
      if phase != SwStart {
        return;
      }
      var found, p, len := bss.GetIe(CHANNEL_SWITCH);
      if !found {
        if count > 0 {
          bss.AddBcnIe(CHANNEL_SWITCH, [mode, chan, count]);
          update := true;
        } else if chan > 0 {
          phase := SwDone;
        }
      } else if len == CSA_IE_LEN {
        if count > 0 {
          bss.Patch(p, First(bss.es, CHANNEL_SWITCH), 2, count);
        } else {
          bss.RemoveBcnIe(CHANNEL_SWITCH);
          phase := SwDone;
        }
        update := true;
      }
      if count > 0 {
        count := count - 1;
      }
    }

    /** A whole countdown: after one update more than the count the switch is done, not before, and the
        beacon's element octets are those at the start. */
    method CountDownAll()
      requires Valid() && phase == SwStart && chan > 0 && !HasCsa(bss.es)
      requires FIXED + |Encode(Added(bss.es, CsaElement(chan, mode, count)))| <= MAX_IE_SZ
      modifies this, bss, bss.ies
      ensures Valid() && phase == SwDone && count == 0
      ensures bss.length == old(bss.length) && bss.ies[..bss.length] == old(bss.ies[..bss.length])
    {
      hide Next, After, HasCsa, Added;
      ghost var c := View();
      AfterZero(c);
      var n: nat := count;
      for k := 0 to n + 1
        invariant Valid() && View() == After(c, k)
        invariant k > 0 && k <= n ==> phase == SwStart
        invariant bss.ies[..FIXED] == old(bss.ies[..FIXED])
      {
        RoomThroughout(c, k);
        AfterStep(c, k);
        var _ := UpdateCsaIe();
        if k < n {
          DuringCountdown(c, k + 1);
        }
      }
      CountdownEnds(c, c.count + 1);
      assert bss.ies[..bss.length] == bss.ies[..FIXED] + bss.ies[FIXED..bss.length];
      assert old(bss.ies[..bss.length]) == old(bss.ies[..FIXED]) + old(bss.ies[FIXED..bss.length]);
    }
  }

  // ------------------------------------------------------------ whole runs

  lemma NoCsaToInsert(es: seq<Element>)
    requires !HasCsa(es)
    ensures !Matches(es, CHANNEL_SWITCH)
  {
  }

  /** Counting the element down in place is the same as inserting it afresh with the new count. */
  lemma CountDown(es: seq<Element>, chan: byte, mode: byte, x: byte, y: byte)
    requires !HasCsa(es) && CanAdd(es, CHANNEL_SWITCH)
    ensures var with := Added(es, CsaElement(chan, mode, x));
            var k := First(with, CHANNEL_SWITCH);
            && k < |with| && with[k] == CsaElement(chan, mode, x)
            && with[k := CsaElement(chan, mode, y)] == Added(es, CsaElement(chan, mode, y))
            && Removed(with, CHANNEL_SWITCH) == es
  {
    NoCsaToInsert(es);
    var was, now := CsaElement(chan, mode, x), CsaElement(chan, mode, y);
    AddedIsFound(es, was);
    RemoveUndoesInsert(es, was);
    var k := Place(es, CHANNEL_SWITCH);
    UpdateMiddle(es[..k], [was], es[k..], 0, now);
    assert [was][0 := now] == [now];
  }

  /** The state while the element shows `shown`, if the element could be inserted at all: the
      next beacon will show one less, and no other element has changed. */
  function Announcing(c: Csa, shown: byte): Csa
    requires shown > 0
  {
    Csa(SwStart, c.chan, c.mode, shown - 1, Added(c.es, CsaElement(c.chan, c.mode, shown)))
  }

  lemma NextWhileAnnouncing(c: Csa, shown: byte)
    requires !HasCsa(c.es) && shown > 1
    ensures Next(Announcing(c, shown)) == Announcing(c, shown - 1)
  {
    var a := Announcing(c, shown);
    if CanAdd(c.es, CHANNEL_SWITCH) {
      CountDown(c.es, c.chan, c.mode, shown, shown - 1);
      var k := First(a.es, CHANNEL_SWITCH);
      assert a.es[k].body[2 := a.count] == CsaElement(c.chan, c.mode, shown - 1).body;
    } else {
      assert a.es == c.es;
    }
  }

  lemma FirstAnnouncement(c: Csa)
    requires c.phase == SwStart && !HasCsa(c.es) && c.count > 0
    ensures Next(c) == Announcing(c, c.count)
  {
  }

  /** The k-th update (1 <= k <= n) leaves the element showing n - k + 1. */
  lemma {:induction false} DuringCountdown(c: Csa, k: nat)
    requires c.phase == SwStart && !HasCsa(c.es) && 0 < k <= c.count
    ensures After(c, k) == Announcing(c, c.count - k + 1)
    decreases k
  {
    hide Added, HasCsa, Next, Announcing;
    assert After(c, k) == Next(After(c, k - 1));
    if k == 1 {
      FirstAnnouncement(c);
    } else {
      DuringCountdown(c, k - 1);
      NextWhileAnnouncing(c, c.count - k + 2);
    }
  }

  /** The switch ends exactly at update n + 1, with the element list as it was, if the new channel
      is named or the announcement could be inserted; otherwise it never ends. */
  lemma {:induction false} CountdownEnds(c: Csa, updates: nat)
    requires c.phase == SwStart && !HasCsa(c.es) && updates > c.count
    ensures c.chan > 0 || (c.count > 0 && CanAdd(c.es, CHANNEL_SWITCH)) ==>
              After(c, updates) == c.(phase := SwDone, count := 0)
    ensures !(c.chan > 0 || (c.count > 0 && CanAdd(c.es, CHANNEL_SWITCH))) ==>
              After(c, updates) == c.(count := 0)
    decreases updates
  {
    if updates == c.count + 1 {
      if c.count > 0 {
        DuringCountdown(c, c.count);
        if CanAdd(c.es, CHANNEL_SWITCH) {
          CountDown(c.es, c.chan, c.mode, 1, 1);
        }
      } else {
        assert After(c, 0) == c;
      }
    } else {
      CountdownEnds(c, updates - 1);
    }
  }

  /** What the beacon announces after the k-th update, octet by octet: the mode, the new channel, and how
      many beacons are left. */
  lemma AnnouncedOctets(c: Csa, k: nat)
    requires c.phase == SwStart && !HasCsa(c.es) && 0 < k <= c.count && CanAdd(c.es, CHANNEL_SWITCH)
    ensures var es := After(c, k).es;
            && HasCsa(es)
            && var b := es[First(es, CHANNEL_SWITCH)].body;
            && |b| == 3 && b[0] == c.mode && b[1] == c.chan && b[2] == c.count - k + 1
  {
    DuringCountdown(c, k);
    CountDown(c.es, c.chan, c.mode, c.count - k + 1, 0);
  }

  /** A call that changes the list says so. */
  lemma ChangesAreTold(c: Csa)
    ensures Next(c).es != c.es ==> Changes(c)
  {
  }

  /** Over a countdown: every update up to the last announcement says that the beacon is new, the one that ends
      it does if there was an announcement to take out, and none after that. */
  lemma UpdatesAreTold(c: Csa, k: nat)
    requires c.phase == SwStart && !HasCsa(c.es)
    ensures Changes(After(c, k)) <==>
            k < c.count || (k == c.count && c.count > 0 && CanAdd(c.es, CHANNEL_SWITCH))
  {
    hide Next, Added, CanAdd, HasCsa;
    var can := CanAdd(c.es, CHANNEL_SWITCH);
    if k == 0 {
      ToldAtStart(c);
      AfterZero(c);
    } else if k <= c.count {
      DuringCountdown(c, k);
      ToldWhileAnnouncing(c, c.count - k + 1);
    } else {
      CountdownEnds(c, k);
      ToldAtEnd(c);
    }
  }

  lemma ToldAtStart(c: Csa)
    requires c.phase == SwStart && !HasCsa(c.es)
    ensures Changes(c) <==> c.count > 0
  {
  }

  lemma ToldAtEnd(c: Csa)
    requires !HasCsa(c.es)
    ensures !Changes(c.(phase := SwDone, count := 0)) && !Changes(c.(count := 0))
  {
  }

  lemma ToldWhileAnnouncing(c: Csa, shown: byte)
    requires !HasCsa(c.es) && shown > 0
    ensures Changes(Announcing(c, shown)) <==> shown > 1 || CanAdd(c.es, CHANNEL_SWITCH)
  {
    if CanAdd(c.es, CHANNEL_SWITCH) {
      CountDown(c.es, c.chan, c.mode, shown, shown);
    }
  }

  // ------------------------------------------------------------ an announcement that is already there

  /** The list with the announcement at `i` counted down in place. */
  function Recounted(es: seq<Element>, i: nat, shown: byte): seq<Element>
    requires i < |es| && |es[i].body| == 3
  {
    es[i := Element(es[i].id, [es[i].body[0], es[i].body[1], shown])]
  }

  /** An announcement of the right length that was there before keeps its mode and channel, whatever the AP's
      are; its count is that of the AP. */
  lemma {:induction false} ExistingIsCounted(c: Csa, i: nat, k: nat)
    requires c.phase == SwStart && 0 < k <= c.count
    requires i == First(c.es, CHANNEL_SWITCH) < |c.es| && |c.es[i].body| == 3
    ensures After(c, k) == c.(count := c.count - k, es := Recounted(c.es, i, c.count - k + 1))
    decreases k
  {
    hide Next, After, First, Recounted;
    AfterStep(c, k - 1);
    if k == 1 {
      AfterZero(c);
      RecountOnce(c, i);
    } else {
      ExistingIsCounted(c, i, k - 1);
      RecountedAgain(c, i, c.count - k + 2);
    }
  }

  lemma RecountOnce(c: Csa, i: nat)
    requires c.phase == SwStart && c.count > 0
    requires i == First(c.es, CHANNEL_SWITCH) < |c.es| && |c.es[i].body| == 3
    ensures Next(c) == c.(count := c.count - 1, es := Recounted(c.es, i, c.count))
  {
    var b := c.es[i].body;
    assert b[2 := c.count] == [b[0], b[1], c.count];
  }

  lemma RecountedAgain(c: Csa, i: nat, shown: byte)
    requires c.phase == SwStart && shown > 1
    requires i == First(c.es, CHANNEL_SWITCH) < |c.es| && |c.es[i].body| == 3
    ensures Next(c.(count := shown - 1, es := Recounted(c.es, i, shown)))
            == c.(count := shown - 2, es := Recounted(c.es, i, shown - 1))
  {
    RecountedFirst(c.es, i, shown);
    RecountOnce(c.(count := shown - 1, es := Recounted(c.es, i, shown)), i);
    assert Recounted(Recounted(c.es, i, shown), i, shown - 1) == Recounted(c.es, i, shown - 1);
  }

  lemma RecountedFirst(es: seq<Element>, i: nat, shown: byte)
    requires i == First(es, CHANNEL_SWITCH) < |es| && |es[i].body| == 3
    ensures First(Recounted(es, i, shown), CHANNEL_SWITCH) == i
  {
    var after := Recounted(es, i, shown);
    assert forall j | 0 <= j < |es| :: after[j].id == es[j].id;
  }

  /** It is taken out, and the switch done, at exactly update n + 1. */
  lemma {:induction false} ExistingIsRemoved(c: Csa, i: nat, updates: nat)
    requires c.phase == SwStart && updates > c.count
    requires i == First(c.es, CHANNEL_SWITCH) < |c.es| && |c.es[i].body| == 3
    ensures After(c, updates) == c.(phase := SwDone, count := 0, es := c.es[..i] + c.es[i + 1..])
    decreases updates
  {
    AfterStep(c, updates - 1);
    if updates > c.count + 1 {
      ExistingIsRemoved(c, i, updates - 1);
    } else if c.count == 0 {
      AfterZero(c);
    } else {
      ExistingIsCounted(c, i, c.count);
      RecountedFirst(c.es, i, 1);
      var last := Recounted(c.es, i, 1);
      assert last[..i] == c.es[..i] && last[i + 1..] == c.es[i + 1..];
    }
  }

  /** One of another length is left alone, and the switch never ends. */
  lemma {:induction false} ForeignIsLeft(c: Csa, k: nat)
    requires c.phase == SwStart && HasCsa(c.es) && |c.es[First(c.es, CHANNEL_SWITCH)].body| != 3
    ensures After(c, k) == c.(count := if k < c.count then c.count - k else 0)
    decreases k
  {
    if k == 0 {
      AfterZero(c);
    } else {
      AfterStep(c, k - 1);
      ForeignIsLeft(c, k - 1);
    }
  }

  /** The announcement takes the same room whatever count it shows. */
  lemma SameRoom(es: seq<Element>, chan: byte, mode: byte, x: byte, y: byte)
    ensures |Encode(Added(es, CsaElement(chan, mode, x)))| == |Encode(Added(es, CsaElement(chan, mode, y)))|
  {
    var e, f := CsaElement(chan, mode, x), CsaElement(chan, mode, y);
    if CanAdd(es, CHANNEL_SWITCH) {
      var k, end := Place(es, CHANNEL_SWITCH), AddEnd(es, CHANNEL_SWITCH);
      AddedParts(es, e);
      AddedParts(es, f);
      EncodeParts(es[..k], [e], es[end..]);
      EncodeParts(es[..k], [f], es[end..]);
      EncodeOne(e);
      EncodeOne(f);
    }
  }

  lemma AfterZero(c: Csa)
    ensures After(c, 0) == c
  {
  }

  lemma AfterStep(c: Csa, k: nat)
    ensures After(c, k + 1) == Next(After(c, k))
  {
  }

  /** Every list of a countdown fits if the first announcement does. */
  lemma RoomThroughout(c: Csa, k: nat)
    requires c.phase == SwStart && !HasCsa(c.es) && c.chan > 0 && k <= c.count
    requires FIXED + |Encode(c.es)| <= MAX_IE_SZ
    requires FIXED + |Encode(Added(c.es, CsaElement(c.chan, c.mode, c.count)))| <= MAX_IE_SZ
    ensures FIXED + |Encode(Next(After(c, k)).es)| <= MAX_IE_SZ
  {
    hide Next, After, Encode, Added, HasCsa;
    AfterStep(c, k);
    if k < c.count {
      DuringCountdown(c, k + 1);
      SameRoom(c.es, c.chan, c.mode, c.count, c.count - k);
    } else {
      CountdownEnds(c, c.count + 1);
    }
  }
}
