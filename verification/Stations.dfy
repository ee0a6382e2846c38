/** Per-station flags against BSS-wide counters, and what the beacon says because of them. */
module Stations {
  import opened Bytes
  import opened Options
  import opened Elements
  import opened Beacon

  const ERPINFO: byte := 42
  const HTINFO: byte := 61

  /** The `*_set` flags of `sta_info`, each with its own `num_sta_*` counter. */
  datatype Flag = NoShortPreamble | NonErp | NoShortSlot | NoHtGf | NoHt | Ht20 | Intolerant40

  /** What a station declares when it associates. */
  datatype Caps = Caps(shortPreamble: bool, nonErp: bool, shortSlot: bool,
                       ht: bool, greenfield: bool, width40: bool, intolerant: bool)

  datatype HtMode = Pure | MayBeLegacy | Ht20Associated | Mixed

  /** The fields of the HT operation element the AP maintains. */
  datatype HtOp = HtOp(mode: HtMode, nonGfPresent: bool, nonHtPresent: bool)

  type Flags = map<nat, set<Flag>>

  ghost function Carriers(stas: Flags, f: Flag): set<nat> {
    set id | id in stas && f in stas[id]
  }

  /** How many stations carry the flag. */
  ghost function Count(stas: Flags, f: Flag): nat { |Carriers(stas, f)| }

  lemma CountRaise(stas: Flags, id: nat, f: Flag)
    requires id in stas && f !in stas[id]
    ensures forall g: Flag ::
              Count(stas[id := stas[id] + {f}], g) == Count(stas, g) + (if g == f then 1 else 0)
  {
    var after := stas[id := stas[id] + {f}];
    forall g: Flag
      ensures Count(after, g) == Count(stas, g) + (if g == f then 1 else 0)
    {
      assert Carriers(after, g) == Carriers(stas, g) + (if g == f then {id} else {});
    }
  }

  lemma CountLower(stas: Flags, id: nat, f: Flag)
    requires id in stas && f in stas[id]
    ensures forall g: Flag ::
              Count(stas[id := stas[id] - {f}], g) == Count(stas, g) - (if g == f then 1 else 0)
  {
    var after := stas[id := stas[id] - {f}];
    CountRaise(after, id, f);
    assert after[id := after[id] + {f}] == stas by {
      assert after[id] + {f} == stas[id];
    }
  }

  /** Whether a station carries a flag after associating.  A station that comes back with better
      HT capabilities keeps the flags it had: a join never clears the last three. */
  predicate CarriesAfterJoin(f: Flag, had: bool, c: Caps, htEnabled: bool) {
    match f
    case NoShortPreamble => !c.shortPreamble
    case NonErp => c.nonErp
    case NoShortSlot => !c.shortSlot
    case NoHt => if htEnabled then !c.ht else had
    case NoHtGf => had || (htEnabled && c.ht && !c.greenfield)
    case Ht20 => had || (htEnabled && c.ht && !c.width40)
    case Intolerant40 => had || (htEnabled && c.ht && c.intolerant)
  }

  /** The HT half of a join. */
  predicate CarriesAfterHt(f: Flag, had: bool, c: Caps) {
    if f == NoShortPreamble || f == NonErp || f == NoShortSlot then had
    else CarriesAfterJoin(f, had, c, true)
  }

  lemma ComposeJoin(was: set<Flag>, mid: set<Flag>, now: set<Flag>, c: Caps)
    requires forall f: Flag :: f in mid <==> CarriesAfterJoin(f, f in was, c, false)
    requires forall f: Flag :: f in now <==> CarriesAfterHt(f, f in mid, c)
    ensures forall f: Flag :: f in now <==> CarriesAfterJoin(f, f in was, c, true)
  {
  }

  /** No station but `id` has changed. */
  ghost predicate OnlyChanged(a: Flags, b: Flags, id: nat) {
    a.Keys == b.Keys && forall o | o in a && o != id :: a[o] == b[o]
  }

  /** The ERP octet `update_bcn_erpinfo_ie` writes: both protection bits set exactly when the
      counter equals one, and the preamble bit when some station needs long preambles. */
  function ErpOctet(was: byte, nonErp: int, noShortPreamble: int): byte {
    was - was % 8 + (if noShortPreamble > 0 then 4 else 0) + (if nonErp == 1 then 3 else 0)
  }

  /** The body of the first element of an id; nothing if there is none. */
  function BodyOf(es: seq<Element>, id: byte): seq<byte> {
    if First(es, id) < |es| then es[First(es, id)].body else []
  }

  predicate HasErp(es: seq<Element>) { BodyOf(es, ERPINFO) != [] }

  function ErpInfo(es: seq<Element>): byte
    requires HasErp(es)
  {
    BodyOf(es, ERPINFO)[0]
  }

  predicate HasHt(es: seq<Element>) { BodyOf(es, HTINFO) != [] }

  /** NonERP-Present and Use-Protection. */
  function ProtectionBits(v: byte): nat { v % 4 }

  predicate BarkerBit(v: byte) { v / 4 % 2 == 1 }

  /** Whether a change of the non-ERP flag rewrites the ERP octet. */
  predicate WritesErp(was: bool, now: bool, count: int) { was != now && count == if now then 1 else 0 }

  /** The operation mode field of the HT operation element. */
  function OpMode(o: HtOp): (m: byte)
    ensures m < 32
  {
    (match o.mode case Pure => 0 case MayBeLegacy => 1 case Ht20Associated => 2 case Mixed => 3)
    + (if o.nonGfPresent then 4 else 0) + if o.nonHtPresent then 16 else 0
  }

  /** The channel of the BSS as far as the HT operation element depends on it. */
  datatype Channel = Channel(band24: bool, wide: bool, above: bool)

  /** The width octet of the HT operation element: 20 MHz where something speaks against 40 MHz in the
      2.4 GHz band, 40 MHz again once nothing does. */
  function WidthOctet(was: byte, c: Channel, narrow: bool, to20: bool): byte {
    if !to20 && c.band24 then (if narrow then was - was % 8 else was)
    else if !narrow && c.wide then was - was % 8 + 4 + (if c.above then 1 else 3)
    else was
  }

  function To20(c: Channel, narrow: bool, to20: bool): bool {
    if !to20 && c.band24 then narrow else if !narrow && c.wide then false else to20
  }

  function HtBody(b: seq<byte>, width: byte, mode: byte): seq<byte>
    requires |b| >= 4
  {
    b[1 := width][2 := mode][3 := 0]
  }

  function HtOpFor(noHt: int, noHtGf: int, ht20: int, apWidth40: bool, olbcHt: bool): HtOp {
    HtOp(if noHt != 0 then Mixed
         else if apWidth40 && ht20 != 0 then Ht20Associated
         else if olbcHt then MayBeLegacy
         else Pure,
         noHtGf != 0,
         noHt != 0 || olbcHt)
  }

  /** Some station carries the flag. */
  ghost predicate Any(stas: Flags, f: Flag) { exists id | id in stas :: f in stas[id] }

  /** What the operation mode octet has to say: in its low two bits 3 (mixed) if some station is not HT, else 2
      if the AP is 40 MHz wide and some station only 20 MHz, else 1 if legacy networks are near, else 0; in the
      bit worth 4 whether some station is not greenfield, in the bit worth 16 whether non-HT stations are near. */
  ghost predicate ModeSays(v: byte, stas: Flags, wide: bool, olbcHt: bool) {
    && (v % 4 == 3 <==> Any(stas, NoHt))
    && (v % 4 == 2 <==> !Any(stas, NoHt) && wide && Any(stas, Ht20))
    && (v % 4 == 1 <==> !Any(stas, NoHt) && !(wide && Any(stas, Ht20)) && olbcHt)
    && (v / 4 % 2 == 1 <==> Any(stas, NoHtGf))
    && (v / 16 % 2 == 1 <==> Any(stas, NoHt) || olbcHt)
    && v / 8 % 2 == 0 && v < 32
  }

  lemma AnyIsCounted(stas: Flags, f: Flag)
    ensures Any(stas, f) <==> Count(stas, f) != 0
  {
    if Any(stas, f) {
      var id :| id in stas && f in stas[id];
      assert id in Carriers(stas, f);
    } else {
      assert Carriers(stas, f) == {};
    }
  }

  /** The secondary channel offset and the channel width of the HT operation element. */
  function WidthBits(to20: bool, c: Channel): nat { if to20 || !c.wide then 0 else if c.above then 5 else 7 }

  /** Only those bits are ever written, and they are right if they were. */
  lemma WidthOctetKeeps(was: byte, c: Channel, narrow: bool, to20: bool)
    requires was % 8 == WidthBits(to20, c)
    ensures var v := WidthOctet(was, c, narrow, to20);
            v / 8 == was / 8 && v % 8 == WidthBits(To20(c, narrow, to20), c)
  {
  }

  /** A wide AP in the 2.4 GHz band is switched to 20 MHz exactly while something speaks against 40 MHz. */
  lemma To20Is(c: Channel, narrow: bool, to20: bool)
    ensures c.wide && c.band24 ==> (To20(c, narrow, to20) <==> narrow)
    ensures !c.wide && to20 ==> To20(c, narrow, to20)
    ensures !c.band24 && !to20 ==> !To20(c, narrow, to20)
  {
  }

  /** Only the low three bits of the ERP octet are ever written. */
  lemma ErpOctetKeeps(was: byte, nonErp: int, noShortPreamble: int)
    ensures ErpOctet(was, nonErp, noShortPreamble) / 8 == was / 8
  {
  }

  class Ap {
    const bss: Bss
    const erpEnabled: bool
    const htEnabled: bool   // registry
    const htOption: bool    // this BSS
    const apWidth40: bool
    const htInfo: bool      // the HT operation element is maintained
    const channel: Channel
    var started: bool
    var stas: Flags
    var num: map<Flag, int>
    var olbcHt: bool
    var widthRequest: bool
    var channelReport: bool
    var olbc: bool
    var to20: bool
    var htOp: HtOp

    ghost predicate Valid()
      reads this`num, bss, bss.ies
    {
      && bss.Valid()
      && (HasHt(bss.es) ==> |BodyOf(bss.es, HTINFO)| >= 4)
      && forall f: Flag :: f in num
    }

    /** By how much a counter is off. */
    ghost function Drift(f: Flag): int
      requires f in num
      reads this`num, this`stas
    {
      num[f] - Count(stas, f)
    }

    /** Every counter is the number of stations carrying its flag. */
    ghost predicate Exact()
      requires forall f: Flag :: f in num
      reads this`num, this`stas
    {
      forall f: Flag :: Drift(f) == 0
    }

    /** The beacon demands protection exactly when a non-ERP station is associated. */
    ghost predicate ErpHonest()
      reads this`started, this`stas, bss
    {
      started && erpEnabled && HasErp(bss.es) ==>
        ProtectionBits(ErpInfo(bss.es)) == if Carriers(stas, NonErp) != {} then 3 else 0
    }

    /** The HT operation mode is what the counters call for. */
    ghost predicate HtHonest()
      requires forall f: Flag :: f in num
      reads this`num, this`htOp, this`olbcHt
    {
      htOption ==> htOp == HtOpFor(num[NoHt], num[NoHtGf], num[Ht20], apWidth40, olbcHt)
    }

    /** The HT operation element of the beacon carries the operation mode. */
    ghost predicate HtAnnounced()
      reads this`htOp, this`started, bss
    {
      started && htOption && htInfo && |BodyOf(bss.es, HTINFO)| >= 4 ==>
        BodyOf(bss.es, HTINFO)[2..4] == [OpMode(htOp), 0]
    }

    /** The HT operation element of the beacon is maintained. */
    ghost predicate Maintained()
      reads this`started, bss
    {
      started && htOption && htInfo && |BodyOf(bss.es, HTINFO)| >= 4
    }

    /** The beacon announces 40 MHz exactly while a 40 MHz AP has not switched to 20 MHz. */
    ghost predicate WidthKept()
      reads this`to20, this`started, bss
    {
      Maintained() ==> BodyOf(bss.es, HTINFO)[1] % 8 == WidthBits(to20, channel)
    }

    /** While everything is honest the operation mode octet says what there is to say of the stations. */
    lemma ModeIsSaid()
      requires Good() && HtHonest() && HtAnnounced()
      ensures Maintained() ==> ModeSays(BodyOf(bss.es, HTINFO)[2], stas, apWidth40, olbcHt)
    {
      if Maintained() {
        assert BodyOf(bss.es, HTINFO)[2] == BodyOf(bss.es, HTINFO)[2..4][0];
        assert Drift(NoHt) == 0 && Drift(NoHtGf) == 0 && Drift(Ht20) == 0;
        AnyIsCounted(stas, NoHt);
        AnyIsCounted(stas, NoHtGf);
        AnyIsCounted(stas, Ht20);
      }
    }

    /** The Barker bit of the ERP octet says whether some station needs long preambles. */
    ghost predicate BarkerHonest()
      requires HasErp(bss.es)
      reads this`stas, bss
    {
      BarkerBit(ErpInfo(bss.es)) <==> Carriers(stas, NoShortPreamble) != {}
    }

    ghost predicate Good()
      reads this`num, this`stas, this`started, bss, bss.ies
    {
      Valid() && Exact() && ErpHonest()
    }

    /** `start_ap_mode`, with no station flags set. */
    constructor (bss: Bss, erpEnabled: bool, htEnabled: bool, htOption: bool, apWidth40: bool, htInfo: bool,
                 channel: Channel)
      requires bss.Valid() && (HasHt(bss.es) ==> |BodyOf(bss.es, HTINFO)| >= 4)
      ensures Valid() && Exact() && ErpHonest() && !started && stas == map[] && HtAnnounced()
      ensures this.htInfo == htInfo && this.channel == channel
      ensures this.bss == bss && this.erpEnabled == erpEnabled && this.htEnabled == htEnabled
      ensures this.htOption == htOption && this.apWidth40 == apWidth40
      ensures HtHonest() && htOp == HtOpFor(0, 0, 0, apWidth40, false) && !olbcHt && !to20
    {
      this.bss, this.erpEnabled, this.htEnabled := bss, erpEnabled, htEnabled;
      this.htOption, this.apWidth40, this.htInfo, this.channel := htOption, apWidth40, htInfo, channel;
      olbc, to20 := false, false;
      started, olbcHt, widthRequest, channelReport := false, false, false, false;
      stas := map[];
      num := map[NoShortPreamble := 0, NonErp := 0, NoShortSlot := 0, NoHtGf := 0,
                 NoHt := 0, Ht20 := 0, Intolerant40 := 0];
      htOp := HtOp(Pure, false, false);
      new;
      forall f: Flag ensures f in num && Drift(f) == 0 {
        assert f.NoShortPreamble? || f.NonErp? || f.NoShortSlot? || f.NoHtGf? || f.NoHt? || f.Ht20?
               || f.Intolerant40?;
        assert Carriers(stas, f) == {};
      }
    }

    /** `if (!flag) { flag = 1; num++; }` */
    method Raise(id: nat, f: Flag) returns (changed: bool)
      requires Valid() && id in stas
      modifies this`stas, this`num
      ensures Valid() && changed == (f !in old(stas)[id])
      ensures stas == old(stas)[id := old(stas)[id] + {f}]
      ensures num == old(num)[f := old(num)[f] + (if changed then 1 else 0)]
      ensures forall g: Flag | g != f :: Carriers(stas, g) == old(Carriers(stas, g))
      ensures forall g: Flag :: Drift(g) == old(Drift(g))
    {
      changed := f !in stas[id];
      if changed {
        CountRaise(stas, id, f);
        stas := stas[id := stas[id] + {f}];
        num := num[f := num[f] + 1];
      } else {
        assert stas[id] + {f} == stas[id];
        assert stas == stas[id := stas[id] + {f}];
      }
    }

    /** `if (flag) { flag = 0; num--; }` */
    method Lower(id: nat, f: Flag) returns (changed: bool)
      requires Valid() && id in stas
      modifies this`stas, this`num
      ensures Valid() && changed == (f in old(stas)[id])
      ensures stas == old(stas)[id := old(stas)[id] - {f}]
      ensures num == old(num)[f := old(num)[f] - (if changed then 1 else 0)]
      ensures forall g: Flag | g != f :: Carriers(stas, g) == old(Carriers(stas, g))
      ensures forall g: Flag :: Drift(g) == old(Drift(g))
    {
      changed := f in stas[id];
      if changed {
        CountLower(stas, id, f);
        stas := stas[id := stas[id] - {f}];
        num := num[f := num[f] - 1];
      } else {
        assert stas[id] - {f} == stas[id];
        assert stas == stas[id := stas[id] - {f}];
      }
    }

    /** One flag up or down, counted. */
    method Flip(id: nat, f: Flag, on: bool) returns (changed: bool)
      requires Valid() && id in stas
      modifies this`stas, this`num
      ensures Valid() && changed == (on != (f in old(stas)[id]))
      ensures OnlyChanged(old(stas), stas, id)
      ensures forall g: Flag :: g in stas[id] <==> if g == f then on else g in old(stas)[id]
      ensures forall g: Flag | g != f :: num[g] == old(num)[g] && Carriers(stas, g) == old(Carriers(stas, g))
      ensures num[f] == old(num)[f] + if !changed then 0 else if on then 1 else -1
      ensures !changed ==> Carriers(stas, f) == old(Carriers(stas, f))
      ensures forall g: Flag :: Drift(g) == old(Drift(g))
    {
      if on {
        changed := Raise(id, f);
      } else {
        changed := Lower(id, f);
      }
    }

    /** `update_bcn_erpinfo_ie`, reached through `_update_beacon`. */
    method UpdateErpInfo()
      requires Valid()
      modifies bss, bss.ies
      ensures Valid()
      ensures bss.es ==
                if started && erpEnabled && HasErp(old(bss.es)) then
                  var k := First(old(bss.es), ERPINFO);
                  var v := ErpOctet(ErpInfo(old(bss.es)), num[NonErp], num[NoShortPreamble]);
                  old(bss.es)[k := Element(ERPINFO, old(bss.es)[k].body[0 := v])]
                else old(bss.es)
      ensures BodyOf(bss.es, HTINFO) == BodyOf(old(bss.es), HTINFO)
      ensures BodyOf(bss.es, ERPINFO) ==
                if started && erpEnabled && HasErp(old(bss.es)) then
                  BodyOf(old(bss.es), ERPINFO)[0 := ErpOctet(ErpInfo(old(bss.es)), num[NonErp], num[NoShortPreamble])]
                else BodyOf(old(bss.es), ERPINFO)
    {
      if !started || !erpEnabled {
        return;
      }
      var found, p, len := bss.GetIe(ERPINFO);
      if found && len > 0 {
        ghost var k := First(bss.es, ERPINFO);
        bss.At(k, p);
        var was := bss.ies[p + 2];
        assert was == bss.ies[p + 2..p + 2 + len][0];
        PatchKeeps(bss.es, k, 0, ErpOctet(was, num[NonErp], num[NoShortPreamble]), ERPINFO);
        PatchKeeps(bss.es, k, 0, ErpOctet(was, num[NonErp], num[NoShortPreamble]), HTINFO);
        bss.Patch(p, k, 0, ErpOctet(was, num[NonErp], num[NoShortPreamble]));
      }
    }

    /** Something speaks against 40 MHz. */
    predicate Narrow()
      requires Intolerant40 in num
      reads this`num, this`widthRequest, this`channelReport, this`olbc
    {
      num[Intolerant40] > 0 || widthRequest || channelReport || olbc
    }

    /** `update_bcn_htinfo_ie`: the width octet and the operation mode of the HT operation element. */
    method UpdateHtInfo()
      requires Valid()
      modifies this`to20, bss, bss.ies
      ensures Valid()
      ensures BodyOf(bss.es, ERPINFO) == BodyOf(old(bss.es), ERPINFO)
      ensures var writes := started && htOption && htInfo && HasHt(old(bss.es));
              var b := BodyOf(old(bss.es), HTINFO);
              && to20 == (if writes then To20(channel, Narrow(), old(to20)) else old(to20))
              && BodyOf(bss.es, HTINFO) ==
                 if writes then HtBody(b, WidthOctet(b[1], channel, Narrow(), old(to20)), OpMode(htOp)) else b
      ensures HtAnnounced() && (old(WidthKept()) ==> WidthKept())
      ensures Maintained() && channel.wide && channel.band24 ==> (to20 <==> Narrow())
    {
      hide Encode, Offset, WidthOctet, OpMode, WidthBits, To20;
      if !started || !htOption || !htInfo {
        return;
      }
      To20Is(channel, Narrow(), to20);
      var found, p, len := bss.GetIe(HTINFO);
      if found && len > 0 {
        if WidthKept() {
          WidthOctetKeeps(BodyOf(bss.es, HTINFO)[1], channel, Narrow(), to20);
        }
        WriteHt(p);
        to20 := To20(channel, Narrow(), to20);
      }
    }

    /** The three octets of the HT operation element. */
    method WriteHt(p: nat)
      requires Valid() && HasHt(bss.es) && p == FIXED + Offset(bss.es, First(bss.es, HTINFO))
      modifies bss, bss.ies
      ensures Valid()
      ensures BodyOf(bss.es, ERPINFO) == BodyOf(old(bss.es), ERPINFO)
      ensures var b := BodyOf(old(bss.es), HTINFO);
              BodyOf(bss.es, HTINFO) == HtBody(b, WidthOctet(b[1], channel, Narrow(), to20), OpMode(htOp))
    {
      hide Encode, Offset, WidthOctet, OpMode;
      ghost var b := BodyOf(bss.es, HTINFO);
      bss.At(First(bss.es, HTINFO), p);
      var was := bss.ies[p + 3];
      assert was == bss.ies[p + 2..p + 2 + |b|][1] == b[1];
      PatchHt(p, 1, WidthOctet(was, channel, Narrow(), to20));
      PatchHt(p, 2, OpMode(htOp));
      PatchHt(p, 3, 0);
    }

    /** One octet of the HT operation element. */
    method PatchHt(p: nat, i: nat, v: byte)
      requires Valid() && First(bss.es, HTINFO) < |bss.es| && p == FIXED + Offset(bss.es, First(bss.es, HTINFO))
      requires i < |BodyOf(bss.es, HTINFO)|
      modifies bss, bss.ies
      ensures Valid() && First(bss.es, HTINFO) == First(old(bss.es), HTINFO) < |bss.es|
      ensures Offset(bss.es, First(bss.es, HTINFO)) == old(Offset(bss.es, First(bss.es, HTINFO)))
      ensures BodyOf(bss.es, HTINFO) == BodyOf(old(bss.es), HTINFO)[i := v]
      ensures BodyOf(bss.es, ERPINFO) == BodyOf(old(bss.es), ERPINFO)
    {
      ghost var es, k := bss.es, First(bss.es, HTINFO);
      PatchKeeps(es, k, i, v, HTINFO);
      PatchKeeps(es, k, i, v, ERPINFO);
      bss.Patch(p, k, i, v);
      assert bss.es[..k] == es[..k];
    }

    /** The writer of the protection bits, run just after the non-ERP counter became 0 or 1,
        makes them honest. */
    lemma ErpOctetIsHonest(was: byte)
      requires Valid() && Exact() && (num[NonErp] == 0 || num[NonErp] == 1)
      ensures ProtectionBits(ErpOctet(was, num[NonErp], num[NoShortPreamble])) ==
              if Carriers(stas, NonErp) != {} then 3 else 0
    {
      assert Drift(NonErp) == 0;
    }

    /** Rewriting the ERP octet just after the non-ERP counter became 0 or 1 makes all of it honest. */
    method WriteErp()
      requires Valid()
      modifies bss, bss.ies
      ensures Valid() && (HasErp(bss.es) <==> HasErp(old(bss.es)))
      ensures BodyOf(bss.es, HTINFO) == BodyOf(old(bss.es), HTINFO)
      ensures HasErp(bss.es) ==> ErpInfo(bss.es) / 8 == ErpInfo(old(bss.es)) / 8
      ensures Exact() && (num[NonErp] == 0 || num[NonErp] == 1) ==>
                ErpHonest() && (started && erpEnabled && HasErp(bss.es) ==> BarkerHonest())
    {
      ghost var es := bss.es;
      UpdateErpInfo();
      if started && erpEnabled && HasErp(es) {
        ErpOctetKeeps(ErpInfo(es), num[NonErp], num[NoShortPreamble]);
        if Exact() && (num[NonErp] == 0 || num[NonErp] == 1) {
          ErpOctetIsHonest(ErpInfo(es));
          assert Drift(NoShortPreamble) == 0;
        }
      }
    }

    /** The non-ERP part of a join: the ERP element is rewritten only when the counter reaches 1
        on the way up or 0 on the way down. */
    method SetNonErp(id: nat, nonErp: bool)
      requires Valid() && id in stas
      modifies this`stas, this`num, bss, bss.ies
      ensures Valid()
      ensures OnlyChanged(old(stas), stas, id)
      ensures forall f: Flag :: f in stas[id] <==> if f == NonErp then nonErp else f in old(stas)[id]
      ensures forall g: Flag | g != NonErp :: num[g] == old(num)[g]
      ensures forall g: Flag | g != NonErp :: Carriers(stas, g) == old(Carriers(stas, g))
      ensures forall g: Flag :: Drift(g) == old(Drift(g))
      ensures old(Good()) ==> Good()
      ensures HasErp(bss.es) <==> HasErp(old(bss.es))
      ensures HasErp(bss.es) ==> ErpInfo(bss.es) / 8 == ErpInfo(old(bss.es)) / 8
      ensures BodyOf(bss.es, HTINFO) == BodyOf(old(bss.es), HTINFO)
      ensures !WritesErp(NonErp in old(stas)[id], nonErp, num[NonErp]) ==> bss.es == old(bss.es)
      ensures WritesErp(NonErp in old(stas)[id], nonErp, num[NonErp]) && old(Good()) && started && erpEnabled ==>
                (HasErp(bss.es) ==> BarkerHonest())
      ensures old(Good()) ==>
                (WritesErp(NonErp in old(stas)[id], nonErp, num[NonErp]) <==> Rewrites(old(stas), stas))
    {
      var changed := Flip(id, NonErp, nonErp);
      if changed && num[NonErp] == (if nonErp then 1 else 0) {
        WriteErp();
      } else if old(Good()) {
        assert old(Drift(NonErp)) == 0 && Drift(NonErp) == 0;
      }
    }

    /** `rtw_ht_operation_update`: the number of fields it had to change. */
    method HtOperationUpdate() returns (changes: nat)
      requires Valid()
      modifies this`htOp
      ensures !htOption ==> changes == 0 && htOp == old(htOp)
      ensures htOption ==> htOp == HtOpFor(num[NoHt], num[NoHtGf], num[Ht20], apWidth40, olbcHt)
      ensures changes == 0 <==> htOp == old(htOp)
    {
      changes := 0;
      if !htOption {
        return;
      }
      if !htOp.nonGfPresent && num[NoHtGf] != 0 {
        htOp := htOp.(nonGfPresent := true);
        changes := changes + 1;
      } else if htOp.nonGfPresent && num[NoHtGf] == 0 {
        htOp := htOp.(nonGfPresent := false);
        changes := changes + 1;
      }
      if !htOp.nonHtPresent && (num[NoHt] != 0 || olbcHt) {
        htOp := htOp.(nonHtPresent := true);
        changes := changes + 1;
      } else if htOp.nonHtPresent && num[NoHt] == 0 && !olbcHt {
        htOp := htOp.(nonHtPresent := false);
        changes := changes + 1;
      }
      var mode := Pure;
      if num[NoHt] != 0 {
        mode := Mixed;
      } else if apWidth40 && num[Ht20] != 0 {
        mode := Ht20Associated;
      } else if olbcHt {
        mode := MayBeLegacy;
      }
      if htOp.mode != mode {
        htOp := htOp.(mode := mode);
        changes := changes + 1;
      }
    }

    /** One flag up or down, away from the ERP element. */
    method Put(id: nat, f: Flag, on: bool)
      requires Valid() && id in stas && f != NonErp
      modifies this`stas, this`num
      ensures Valid()
      ensures OnlyChanged(old(stas), stas, id)
      ensures forall g: Flag :: g in stas[id] <==> if g == f then on else g in old(stas)[id]
      ensures forall g: Flag | g != f :: num[g] == old(num)[g] && Carriers(stas, g) == old(Carriers(stas, g))
      ensures on == (f in old(stas)[id]) ==> num[f] == old(num)[f]
      ensures forall g: Flag :: Drift(g) == old(Drift(g))
      ensures old(Good()) ==> Good()
    {
      var _ := Flip(id, f, on);
      assert Carriers(stas, NonErp) == old(Carriers(stas, NonErp));
      if old(Good()) {
        assert Exact();
      }
    }

    /** One flag up, if there is reason to. */
    method PutIf(id: nat, f: Flag, why: bool)
      requires Valid() && id in stas && f != NonErp
      modifies this`stas, this`num
      ensures Valid()
      ensures OnlyChanged(old(stas), stas, id)
      ensures forall g: Flag :: g in stas[id] <==> g in old(stas)[id] || (g == f && why)
      ensures forall g: Flag | g != f :: num[g] == old(num)[g] && Carriers(stas, g) == old(Carriers(stas, g))
      ensures forall g: Flag :: Drift(g) == old(Drift(g))
      ensures old(Good()) ==> Good()
    {
      hide Carriers, BodyOf;
      if why {
        Put(id, f, true);
      }
    }

    /** The HT part of a join. */
    method JoinHt(id: nat, c: Caps)
      requires Valid() && id in stas
      modifies this`stas, this`num
      ensures Valid()
      ensures OnlyChanged(old(stas), stas, id)
      ensures forall f: Flag :: f in stas[id] <==>
                CarriesAfterHt(f, f in old(stas)[id], c)
      ensures Carriers(stas, NoShortPreamble) == old(Carriers(stas, NoShortPreamble)) && num[NonErp] == old(num)[NonErp]
      ensures forall g: Flag :: Drift(g) == old(Drift(g))
      ensures old(Good()) ==> Good()
    {
      hide Carriers, BodyOf;
      if c.ht {
        Put(id, NoHt, false);
        PutIf(id, NoHtGf, !c.greenfield);
        PutIf(id, Ht20, !c.width40);
        PutIf(id, Intolerant40, c.intolerant);
      } else {
        Put(id, NoHt, true);
      }
    }

    /** The part of a join or leave that does not depend on HT. */
    method PutLegacy(id: nat, c: Caps)
      requires Valid() && id in stas
      modifies this`stas, this`num, bss, bss.ies
      ensures Valid()
      ensures OnlyChanged(old(stas), stas, id)
      ensures forall f: Flag :: f in stas[id] <==> CarriesAfterJoin(f, f in old(stas)[id], c, false)
      ensures num[NoHt] == old(num)[NoHt] && num[NoHtGf] == old(num)[NoHtGf] && num[Ht20] == old(num)[Ht20]
      ensures num[Intolerant40] == old(num)[Intolerant40]
      ensures BodyOf(bss.es, HTINFO) == BodyOf(old(bss.es), HTINFO)
      ensures forall g: Flag :: Drift(g) == old(Drift(g))
      ensures old(Good()) ==> Good()
      ensures old(Good()) && started && erpEnabled && HasErp(old(bss.es)) ==>
                && HasErp(bss.es)
                && (BarkerHonest() <==>
                      Rewrites(old(stas), stas) ||
                      (BarkerBit(ErpInfo(old(bss.es))) <==> Carriers(stas, NoShortPreamble) != {}))
                && ErpStep(ErpInfo(old(bss.es)), ErpInfo(bss.es), old(stas), stas)
    {
      hide BodyOf, Carriers;
      Put(id, NoShortPreamble, !c.shortPreamble);
      SetNonErp(id, c.nonErp);
      Put(id, NoShortSlot, !c.shortSlot);
    }

    /** `bss_cap_update_on_sta_join`. */
    method Join(id: nat, c: Caps)
      requires Valid() && id in stas
      modifies this`stas, this`num, this`htOp, this`to20, bss, bss.ies
      ensures Valid()
      ensures OnlyChanged(old(stas), stas, id)
      ensures forall f: Flag :: f in stas[id] <==> CarriesAfterJoin(f, f in old(stas)[id], c, htEnabled)
      ensures forall g: Flag :: Drift(g) == old(Drift(g))
      ensures old(Good()) ==> Good()
      ensures htEnabled || old(HtHonest()) ==> HtHonest()
      ensures old(HtAnnounced()) ==> HtAnnounced()
      ensures old(WidthKept()) ==> WidthKept()
      ensures |BodyOf(bss.es, HTINFO)| == |BodyOf(old(bss.es), HTINFO)|
      ensures if htOp == old(htOp) then to20 == old(to20)
              else Maintained() && channel.wide && channel.band24 ==> (to20 <==> Narrow())
      ensures old(Good()) && started && erpEnabled && HasErp(old(bss.es)) ==>
                && HasErp(bss.es)
                && (BarkerHonest() <==>
                      Rewrites(old(stas), stas) ||
                      (BarkerBit(ErpInfo(old(bss.es))) <==> Carriers(stas, NoShortPreamble) != {}))
                && ErpStep(ErpInfo(old(bss.es)), ErpInfo(bss.es), old(stas), stas)
    {
      hide BodyOf, Carriers, CarriesAfterJoin, CarriesAfterHt;
      PutLegacy(id, c);
      if htEnabled {
        ghost var mid := stas[id];
        JoinHt(id, c);
        ComposeJoin(old(stas)[id], mid, stas[id], c);
        RefreshHtOp();
      }
    }

    /** The HT operation update as a join or leave calls it: the element is rewritten only if the mode
        has changed. */
    method RefreshHtOp()
      requires Valid()
      modifies this`htOp, this`to20, bss, bss.ies
      ensures Valid() && (old(Good()) ==> Good())
      ensures forall g: Flag :: Drift(g) == old(Drift(g))
      ensures BodyOf(bss.es, ERPINFO) == BodyOf(old(bss.es), ERPINFO)
      ensures HtHonest() && (old(HtAnnounced()) ==> HtAnnounced()) && (old(WidthKept()) ==> WidthKept())
      ensures |BodyOf(bss.es, HTINFO)| == |BodyOf(old(bss.es), HTINFO)|
      ensures if htOp == old(htOp) then to20 == old(to20)
              else Maintained() && channel.wide && channel.band24 ==> (to20 <==> Narrow())
    {
      var changes := HtOperationUpdate();
      if changes > 0 {
        UpdateHtInfo();
      }
    }

    /** `bss_cap_update_on_sta_leave`.  The 40 MHz counter is the only one guarded against going
        below zero; `warned` is the warning it gives instead. */
    method Leave(id: nat) returns (warned: bool)
      requires Valid() && id in stas
      modifies this`stas, this`num, this`htOp, this`to20, bss, bss.ies
      ensures Valid()
      ensures OnlyChanged(old(stas), stas, id) && stas[id] == {}
      ensures forall g: Flag | !(warned && g == Intolerant40) :: Drift(g) == old(Drift(g))
      ensures warned <==> Intolerant40 in old(stas)[id] && old(num)[Intolerant40] <= 0
      ensures old(Good()) ==> Good() && !warned
      ensures HtHonest() && (old(HtAnnounced()) ==> HtAnnounced()) && (old(WidthKept()) ==> WidthKept())
      ensures if htOp == old(htOp) then to20 == old(to20)
              else Maintained() && channel.wide && channel.band24 ==> (to20 <==> Narrow())
      ensures old(Good()) && started && erpEnabled && HasErp(old(bss.es)) ==>
                && HasErp(bss.es)
                && (BarkerHonest() <==>
                      Rewrites(old(stas), stas) ||
                      (BarkerBit(ErpInfo(old(bss.es))) <==> Carriers(stas, NoShortPreamble) != {}))
                && ErpStep(ErpInfo(old(bss.es)), ErpInfo(bss.es), old(stas), stas)
    {
      ClearCommon(id);
      warned := ClearIntolerant(id);
      RefreshHtOp();
    }

    method ClearCommon(id: nat)
      requires Valid() && id in stas
      modifies this`stas, this`num, bss, bss.ies
      ensures Valid()
      ensures OnlyChanged(old(stas), stas, id)
      ensures forall g: Flag :: g in stas[id] <==> g == Intolerant40 && g in old(stas)[id]
      ensures forall g: Flag :: Drift(g) == old(Drift(g))
      ensures num[Intolerant40] == old(num)[Intolerant40]
      ensures BodyOf(bss.es, HTINFO) == BodyOf(old(bss.es), HTINFO)
      ensures old(Good()) ==> Good()
      ensures old(Good()) && started && erpEnabled && HasErp(old(bss.es)) ==>
                && HasErp(bss.es)
                && (BarkerHonest() <==>
                      Rewrites(old(stas), stas) ||
                      (BarkerBit(ErpInfo(old(bss.es))) <==> Carriers(stas, NoShortPreamble) != {}))
                && ErpStep(ErpInfo(old(bss.es)), ErpInfo(bss.es), old(stas), stas)
    {
      PutLegacy(id, Caps(true, false, true, false, false, false, false));
      ClearHt(id);
    }

    method ClearHt(id: nat)
      requires Valid() && id in stas
      modifies this`stas, this`num
      ensures Valid()
      ensures OnlyChanged(old(stas), stas, id)
      ensures forall g: Flag :: g in stas[id] <==> g != NoHtGf && g != NoHt && g != Ht20 && g in old(stas)[id]
      ensures forall g: Flag | g != NoHtGf && g != NoHt && g != Ht20 ::
                num[g] == old(num)[g] && Carriers(stas, g) == old(Carriers(stas, g))
      ensures forall g: Flag :: Drift(g) == old(Drift(g))
      ensures old(Good()) ==> Good()
    {
      Put(id, NoHtGf, false);
      Put(id, NoHt, false);
      Put(id, Ht20, false);
    }

    lemma CarrierIsCounted(id: nat, f: Flag)
      requires Valid() && id in stas
      ensures Exact() && f in stas[id] ==> num[f] > 0
    {
      if Exact() && f in stas[id] {
        assert Drift(f) == 0;
        assert id in Carriers(stas, f);
      }
    }

    method ClearIntolerant(id: nat) returns (warned: bool)
      requires Valid() && id in stas
      modifies this`stas, this`num
      ensures Valid()
      ensures OnlyChanged(old(stas), stas, id)
      ensures forall g: Flag :: g in stas[id] <==> g != Intolerant40 && g in old(stas)[id]
      ensures forall g: Flag | !(warned && g == Intolerant40) :: Drift(g) == old(Drift(g))
      ensures warned <==> Intolerant40 in old(stas)[id] && old(num)[Intolerant40] <= 0
      ensures forall g: Flag | g != Intolerant40 :: num[g] == old(num)[g] && Carriers(stas, g) == old(Carriers(stas, g))
      ensures old(Good()) ==> Good() && !warned
    {
      CarrierIsCounted(id, Intolerant40);
      warned := Intolerant40 in stas[id] && num[Intolerant40] <= 0;
      if warned {
        CountLower(stas, id, Intolerant40);
        stas := stas[id := stas[id] - {Intolerant40}];
      } else {
        Put(id, Intolerant40, false);
      }
    }

    /** `rtw_alloc_stainfo` clears the flags. */
    method Allocate(id: nat)
      requires Valid() && id !in stas
      modifies this`stas
      ensures Valid() && stas == old(stas)[id := {}]
      ensures forall g: Flag :: Drift(g) == old(Drift(g))
      ensures old(Good()) ==> Good()
    {
      stas := stas[id := {}];
      forall g: Flag ensures Carriers(stas, g) == old(Carriers(stas, g)) { }
    }

    /** `rtw_free_stainfo` without a leave first, as for an expired authentication: the counters
        stay as they are, so they are off by one for every flag the station still carried. */
    method Discard(id: nat)
      requires Valid() && id in stas
      modifies this`stas
      ensures Valid() && stas == old(stas) - {id}
      ensures forall g: Flag :: Drift(g) == old(Drift(g)) + (if g in old(stas)[id] then 1 else 0)
      ensures old(Good()) && old(stas)[id] == {} ==> Good()
    {
      stas := stas - {id};
      forall g: Flag
        ensures Count(stas, g) == old(Count(stas, g)) - (if g in old(stas)[id] then 1 else 0)
      {
        assert Carriers(stas, g) == old(Carriers(stas, g)) - {id};
      }
      if old(stas)[id] == {} {
        assert Carriers(stas, NonErp) == old(Carriers(stas, NonErp));
      }
    }

    /** What a coexistence frame leaves on record; `updated` is whether any of it is news. */
    method Note(id: nat, intolerant: bool, width20: bool, report: bool) returns (updated: bool)
      requires Valid() && id in stas
      modifies this`stas, this`num, this`widthRequest, this`channelReport
      ensures Valid()
      ensures OnlyChanged(old(stas), stas, id)
      ensures forall f: Flag :: f in stas[id] <==> f in old(stas)[id] || (intolerant && f == Intolerant40)
      ensures widthRequest == (old(widthRequest) || (width20 && !intolerant))
      ensures channelReport == (old(channelReport) || report)
      ensures forall g: Flag | g != Intolerant40 :: num[g] == old(num)[g] && Carriers(stas, g) == old(Carriers(stas, g))
      ensures forall g: Flag :: Drift(g) == old(Drift(g))
      ensures old(Good()) ==> Good()
      ensures !updated ==> Narrow() == old(Narrow())
    {
      hide Carriers, BodyOf;
      updated := false;
      if intolerant {
        updated := Intolerant40 !in stas[id];
        Put(id, Intolerant40, true);
      } else if width20 {
        updated := !widthRequest;
        widthRequest := true;
      }
      if report && !channelReport {
        channelReport := true;
        updated := true;
      }
    }

    /** `rtw_process_public_act_bsscoex`, after the frame has been taken apart. */
    method Coexistence(id: nat, intolerant: bool, width20: bool, report: bool)
      requires Valid()
      modifies this`stas, this`num, this`widthRequest, this`channelReport, this`to20, bss, bss.ies
      ensures Valid()
      ensures id !in stas ==> stas == old(stas) && num == old(num)
      ensures id in stas ==>
                && OnlyChanged(old(stas), stas, id)
                && (forall f: Flag :: f in stas[id] <==> f in old(stas)[id] || (intolerant && f == Intolerant40))
                && widthRequest == (old(widthRequest) || (width20 && !intolerant))
                && channelReport == (old(channelReport) || report)
      ensures forall g: Flag | g != Intolerant40 :: num[g] == old(num)[g] && Carriers(stas, g) == old(Carriers(stas, g))
      ensures forall g: Flag :: Drift(g) == old(Drift(g))
      ensures old(Good()) ==> Good()
      ensures BodyOf(bss.es, ERPINFO) == BodyOf(old(bss.es), ERPINFO)
      ensures old(HtAnnounced()) ==> HtAnnounced()
      ensures old(WidthKept()) ==> WidthKept()
      ensures Maintained() && channel.wide && channel.band24 ==>
                (old(Narrow()) != Narrow() || (old(to20) <==> old(Narrow())) ==> (to20 <==> Narrow()))
    {
      hide Carriers, BodyOf;
      if id !in stas {
        return;
      }
      var updated := Note(id, intolerant, width20, report);
      if updated {
        UpdateHtInfo();
      }
    }

    /** The counter reset at the end of an AP scan.  It is right only if no station carries the
        flag; otherwise the counter is below the truth by the number of stations that do. */
    method ScanDone(foundLegacyBss: bool)
      requires Valid()
      modifies this`num, this`olbcHt
      ensures Valid() && olbcHt == (old(olbcHt) || foundLegacyBss)
      ensures forall g: Flag | g != NoHt :: Drift(g) == old(Drift(g))
      ensures Drift(NoHt) + Count(stas, NoHt) == 0
      ensures old(Good()) ==> (Good() <==> Carriers(stas, NoHt) == {})
    {
      if foundLegacyBss {
        olbcHt := true;
      }
      num := num[NoHt := 0];
      if old(Good()) {
        forall g: Flag | g != NoHt ensures Drift(g) == 0 {
          assert old(Drift(g)) == 0;
        }
        if Carriers(stas, NoHt) == {} {
          assert Exact();
        } else {
          assert Drift(NoHt) != 0;
        }
      }
    }

    /** The BSS goes on the air with no non-ERP station and clear protection bits. */
    method Start()
      requires Good() && Carriers(stas, NonErp) == {}
      requires HasErp(bss.es) ==> ProtectionBits(ErpInfo(bss.es)) == 0
      requires |BodyOf(bss.es, HTINFO)| >= 4 ==> BodyOf(bss.es, HTINFO)[2..4] == [OpMode(htOp), 0]
      modifies this`started
      ensures Good() && started && HtAnnounced()
    {
      started := true;
    }

    /** A station leaves and is freed. */
    method Depart(id: nat) returns (warned: bool)
      requires Good() && id in stas
      modifies this`stas, this`num, this`htOp, this`to20, bss, bss.ies
      ensures Good() && !warned && HtHonest()
      ensures old(HtAnnounced()) ==> HtAnnounced()
      ensures old(WidthKept()) ==> WidthKept()
      ensures stas == old(stas) - {id}
      ensures started && erpEnabled && HasErp(old(bss.es)) ==>
                && HasErp(bss.es)
                && ErpStep(ErpInfo(old(bss.es)), ErpInfo(bss.es), old(stas), stas)
    {
      warned := Leave(id);
      ghost var left := stas;
      Discard(id);
      assert Carriers(stas, NonErp) == Carriers(left, NonErp);
      assert Carriers(stas, NoShortPreamble) == Carriers(left, NoShortPreamble);
    }

    /** One event of a run. */
    method Dispatch(e: Event) returns (warned: bool)
      requires Good()
      modifies this`stas, this`num, this`htOp, this`to20, this`widthRequest, this`channelReport, bss, bss.ies
      ensures Good() && !warned
      ensures old(HtHonest()) ==> HtHonest()
      ensures old(HtAnnounced()) ==> HtAnnounced()
      ensures old(WidthKept()) ==> WidthKept()
      ensures stas == FlagsStep(htEnabled, old(stas), e)
      ensures started && erpEnabled && HasErp(old(bss.es)) ==>
                && HasErp(bss.es)
                && ErpStep(ErpInfo(old(bss.es)), ErpInfo(bss.es), old(stas), stas)
    {
      hide BodyOf, Carriers, ErpStep, CarriesAfterJoin, OpMode, WidthBits, HtOpFor, ProtectionBits, BarkerBit;
      ghost var es := bss.es;
      ErpStepOfNothing(stas, stas, es);
      warned := false;
      match e
      case Arrive(id) =>
        if id !in stas {
          BlankIsNoCarrier(stas, id, NonErp);
          ErpStepOfNothing(stas, stas[id := {}], es);
          Allocate(id);
        }
      case JoinEv(id, c) =>
        if id in stas {
          Join(id, c);
          assert stas[id] == AfterJoin(old(stas)[id], c, htEnabled);
        }
      case LeaveEv(id) =>
        if id in stas {
          warned := Depart(id);
        } else {
          assert stas == stas - {id};
        }
      case CoexEv(id, intolerant, width20, report) =>
        Coexistence(id, intolerant, width20, report);
        ErpStepOfNothing(old(stas), stas, es);
        assert id in stas ==> stas[id] == old(stas)[id] + if intolerant then {Intolerant40} else {};
    }

    /** Every run of joins, leaves and coexistence frames keeps the counters exact and the beacon's
        protection bits and HT operation mode honest, no leave ever warns, each station carries what its
        own history says, and the Barker bit is that of the last rewrite. */
    method Drive(evs: seq<Event>) returns (warned: bool)
      requires Good()
      modifies this`stas, this`num, this`htOp, this`to20, this`widthRequest, this`channelReport, bss, bss.ies
      ensures Good() && !warned
      ensures old(HtHonest()) ==> HtHonest()
      ensures old(HtAnnounced()) ==> HtAnnounced()
      ensures stas == FlagsRun(htEnabled, old(stas), evs)
      ensures started && erpEnabled && HasErp(old(bss.es)) ==>
                && HasErp(bss.es)
                && BarkerBit(ErpInfo(bss.es)) ==
                   BarkerRun(htEnabled, BarkerBit(ErpInfo(old(bss.es))), old(stas), evs)
                && ErpInfo(bss.es) / 8 == ErpInfo(old(bss.es)) / 8
      ensures old(HtHonest()) && old(HtAnnounced()) && Maintained() ==>
                ModeSays(BodyOf(bss.es, HTINFO)[2], stas, apWidth40, olbcHt)
      ensures old(WidthKept()) ==> WidthKept()
    {
      warned := false;
      for i := 0 to |evs|
        invariant Good() && !warned && (old(HtHonest()) ==> HtHonest()) && (old(HtAnnounced()) ==> HtAnnounced())
        invariant stas == FlagsRun(htEnabled, old(stas), evs[..i])
        invariant started && erpEnabled && HasErp(old(bss.es)) ==>
                    && HasErp(bss.es)
                    && BarkerBit(ErpInfo(bss.es)) ==
                       BarkerRun(htEnabled, BarkerBit(ErpInfo(old(bss.es))), old(stas), evs[..i])
                    && ErpInfo(bss.es) / 8 == ErpInfo(old(bss.es)) / 8
        invariant old(WidthKept()) ==> WidthKept()
      {
        assert evs[..i + 1][..i] == evs[..i];
        var w := Dispatch(evs[i]);
        warned := warned || w;
      }
      assert evs[..|evs|] == evs;
      if old(HtHonest()) && old(HtAnnounced()) {
        ModeIsSaid();
      }
    }
  }

  /** Nothing is rewritten while the same stations are non-ERP. */
  lemma ErpStepOfNothing(before: Flags, after: Flags, es: seq<Element>)
    requires Carriers(before, NonErp) == Carriers(after, NonErp)
    ensures HasErp(es) ==> ErpStep(ErpInfo(es), ErpInfo(es), before, after)
  {
  }

  lemma BlankIsNoCarrier(stas: Flags, id: nat, f: Flag)
    requires id !in stas
    ensures Carriers(stas[id := {}], f) == Carriers(stas, f)
  {
  }

  datatype Event =
    | Arrive(id: nat)
    | JoinEv(id: nat, caps: Caps)
    | LeaveEv(id: nat)
    | CoexEv(id: nat, intolerant: bool, width20: bool, report: bool)

  /** The flags of a station the AP knows. */
  ghost function StaOf(stas: Flags, id: nat): Option<set<Flag>> {
    if id in stas then Some(stas[id]) else None
  }

  ghost function AfterJoin(was: set<Flag>, c: Caps, htEnabled: bool): set<Flag> {
    set f: Flag | CarriesAfterJoin(f, f in was, c, htEnabled)
  }

  /** What one event makes of all flags. */
  ghost function FlagsStep(ht: bool, stas: Flags, e: Event): Flags {
    match e
    case Arrive(id) => if id in stas then stas else stas[id := {}]
    case JoinEv(id, c) => if id in stas then stas[id := AfterJoin(stas[id], c, ht)] else stas
    case LeaveEv(id) => stas - {id}
    case CoexEv(id, intolerant, _, _) =>
      if id in stas then stas[id := stas[id] + if intolerant then {Intolerant40} else {}] else stas
  }

  ghost function FlagsRun(ht: bool, stas: Flags, evs: seq<Event>): Flags {
    if evs == [] then stas else FlagsStep(ht, FlagsRun(ht, stas, evs[..|evs| - 1]), evs[|evs| - 1])
  }

  /** The ERP octet is rewritten when the first non-ERP station comes or the last one goes. */
  ghost predicate Rewrites(before: Flags, after: Flags) {
    (Carriers(before, NonErp) == {}) != (Carriers(after, NonErp) == {})
  }

  ghost function BarkerStep(bit: bool, before: Flags, after: Flags): bool {
    if Rewrites(before, after) then Carriers(after, NoShortPreamble) != {} else bit
  }

  /** What one event does to the ERP octet, apart from its protection bits. */
  ghost predicate ErpStep(was: byte, now: byte, before: Flags, after: Flags) {
    BarkerBit(now) == BarkerStep(BarkerBit(was), before, after) && now / 8 == was / 8
  }

  ghost function BarkerRun(ht: bool, bit: bool, stas: Flags, evs: seq<Event>): bool {
    if evs == [] then bit
    else
      var prev := evs[..|evs| - 1];
      BarkerStep(BarkerRun(ht, bit, stas, prev), FlagsRun(ht, stas, prev), FlagsRun(ht, stas, evs))
  }

  /** Event `n` of a run rewrites the ERP octet. */
  ghost predicate RewritesAt(ht: bool, stas: Flags, evs: seq<Event>, n: nat)
    requires n < |evs|
  {
    Rewrites(FlagsRun(ht, stas, evs[..n]), FlagsRun(ht, stas, evs[..n + 1]))
  }

  /** A run without a rewrite leaves the Barker bit. */
  lemma {:induction false} NoRewriteKeepsBarkerBit(ht: bool, bit: bool, stas: Flags, evs: seq<Event>)
    requires forall n | 0 <= n < |evs| :: !RewritesAt(ht, stas, evs, n)
    ensures BarkerRun(ht, bit, stas, evs) == bit
  {
    hide FlagsRun, Rewrites;
    if evs != [] {
      var last := |evs| - 1;
      forall n | 0 <= n < last
        ensures !RewritesAt(ht, stas, evs[..last], n)
      {
        PrefixRewrites(ht, stas, evs, n);
      }
      assert evs[..last + 1] == evs && !RewritesAt(ht, stas, evs, last);
      NoRewriteKeepsBarkerBit(ht, bit, stas, evs[..last]);
    }
  }

  /** After a run the Barker bit says whether stations with long preambles were there at the last
      rewrite of the octet. */
  lemma {:induction false} BarkerBitIsOfLastRewrite(ht: bool, bit: bool, stas: Flags, evs: seq<Event>, n: nat)
    requires n < |evs| && RewritesAt(ht, stas, evs, n)
    requires forall m | n < m < |evs| :: !RewritesAt(ht, stas, evs, m)
    ensures BarkerRun(ht, bit, stas, evs) <==> Carriers(FlagsRun(ht, stas, evs[..n + 1]), NoShortPreamble) != {}
    decreases |evs|
  {
    hide FlagsRun, Rewrites, Carriers;
    var last := |evs| - 1;
    assert evs[..last + 1] == evs;
    if n < last {
      forall m | n <= m < last
        ensures RewritesAt(ht, stas, evs[..last], m) == RewritesAt(ht, stas, evs, m)
      {
        PrefixRewrites(ht, stas, evs, m);
      }
      assert !RewritesAt(ht, stas, evs, last);
      assert evs[..last][..n + 1] == evs[..n + 1];
      BarkerBitIsOfLastRewrite(ht, bit, stas, evs[..last], n);
    }
  }

  lemma PrefixRewrites(ht: bool, stas: Flags, evs: seq<Event>, n: nat)
    requires n < |evs| - 1
    ensures RewritesAt(ht, stas, evs[..|evs| - 1], n) == RewritesAt(ht, stas, evs, n)
  {
    hide FlagsRun, Rewrites;
    var prev := evs[..|evs| - 1];
    assert prev[..n] == evs[..n] && prev[..n + 1] == evs[..n + 1];
  }

  /** Each station carries what its own history says. */
  lemma {:induction false} OwnHistory(ht: bool, stas: Flags, evs: seq<Event>, id: nat)
    ensures StaOf(FlagsRun(ht, stas, evs), id) == StaRun(ht, StaOf(stas, id), id, evs)
  {
    if evs != [] {
      OwnHistory(ht, stas, evs[..|evs| - 1], id);
    }
  }

  /** What one event means for one station. */
  ghost function StaStep(ht: bool, s: Option<set<Flag>>, id: nat, e: Event): Option<set<Flag>> {
    if e.id != id then s
    else if s == None then (if e.Arrive? then Some({}) else None)
    else
      match e
      case Arrive(_) => s
      case JoinEv(_, c) => Some(AfterJoin(s.value, c, ht))
      case LeaveEv(_) => None
      case CoexEv(_, intolerant, _, _) => Some(s.value + if intolerant then {Intolerant40} else {})
  }

  ghost function StaRun(ht: bool, s: Option<set<Flag>>, id: nat, evs: seq<Event>): Option<set<Flag>> {
    if evs == [] then s else StaStep(ht, StaRun(ht, s, id, evs[..|evs| - 1]), id, evs[|evs| - 1])
  }

  predicate JoinOf(e: Event, id: nat) { e.JoinEv? && e.id == id }

  /** The event says of the station what one of the three lasting flags stands for: HT without greenfield, HT
      with 20 MHz only, or that it does not tolerate 40 MHz. */
  predicate Declares(ht: bool, e: Event, id: nat, f: Flag) {
    || (JoinOf(e, id) && ht && e.caps.ht && f == NoHtGf && !e.caps.greenfield)
    || (JoinOf(e, id) && ht && e.caps.ht && f == Ht20 && !e.caps.width40)
    || (JoinOf(e, id) && ht && e.caps.ht && f == Intolerant40 && e.caps.intolerant)
    || (e.CoexEv? && e.id == id && f == Intolerant40 && e.intolerant)
  }

  ghost predicate Stays(evs: seq<Event>, id: nat) { forall n | 0 <= n < |evs| :: evs[n] != LeaveEv(id) }

  /** While a station stays it is known, and a lasting flag is there exactly if it was or some event since
      has declared it. */
  lemma {:induction false} LastingFlags(ht: bool, was: set<Flag>, id: nat, evs: seq<Event>, f: Flag)
    requires Stays(evs, id) && (f == NoHtGf || f == Ht20 || f == Intolerant40)
    ensures StaRun(ht, Some(was), id, evs).Some?
    ensures f in StaRun(ht, Some(was), id, evs).value <==>
            f in was || exists n | 0 <= n < |evs| :: Declares(ht, evs[n], id, f)
  {
    if evs != [] {
      var n := |evs| - 1;
      var prev := evs[..n];
      assert forall m | 0 <= m < n :: prev[m] == evs[m];
      LastingFlags(ht, was, id, prev, f);
      LastingStep(ht, StaRun(ht, Some(was), id, prev).value, id, evs[n], f);
    }
  }

  lemma LastingStep(ht: bool, was: set<Flag>, id: nat, e: Event, f: Flag)
    requires e != LeaveEv(id) && (f == NoHtGf || f == Ht20 || f == Intolerant40)
    ensures StaStep(ht, Some(was), id, e).Some?
    ensures f in StaStep(ht, Some(was), id, e).value <==> f in was || Declares(ht, e, id, f)
  {
  }

  /** The other flags are those of the last join: long preambles, a non-ERP station, long slots, and no HT. */
  ghost predicate FlagsSay(ht: bool, flags: set<Flag>, c: Caps) {
    && (NoShortPreamble in flags <==> !c.shortPreamble)
    && (NonErp in flags <==> c.nonErp)
    && (NoShortSlot in flags <==> !c.shortSlot)
    && (ht ==> (NoHt in flags <==> !c.ht))
  }

  lemma {:induction false} FlagsOfLastJoin(ht: bool, was: set<Flag>, id: nat, evs: seq<Event>, n: nat)
    requires Stays(evs, id) && n < |evs| && JoinOf(evs[n], id)
    requires forall m | n < m < |evs| :: !JoinOf(evs[m], id)
    ensures StaRun(ht, Some(was), id, evs).Some? && FlagsSay(ht, StaRun(ht, Some(was), id, evs).value, evs[n].caps)
    decreases |evs|
  {
    var last := |evs| - 1;
    var prev := evs[..last];
    assert forall m | 0 <= m < last :: prev[m] == evs[m];
    LastingFlags(ht, was, id, prev, Ht20);
    if n < last {
      FlagsOfLastJoin(ht, was, id, prev, n);
    }
  }

  /** A station that left is unknown, and one that arrives carries nothing. */
  lemma ComesAndGoesBlank(ht: bool, s: Option<set<Flag>>, id: nat, evs: seq<Event>)
    ensures StaRun(ht, s, id, evs + [LeaveEv(id)]) == None
    ensures StaRun(ht, s, id, evs) == None ==> StaRun(ht, s, id, evs + [Arrive(id)]) == Some({})
  {
    assert (evs + [LeaveEv(id)])[..|evs|] == evs && (evs + [Arrive(id)])[..|evs|] == evs;
  }

  /** A station that needs long preambles, and is otherwise modern, joins alone: the Barker bit of the
      beacon stays clear. */
  method BarkerBitGoesStale(bss: Bss) returns (ap: Ap)
    requires bss.Valid() && HasErp(bss.es) && ErpInfo(bss.es) % 8 == 0 && !HasHt(bss.es)
    modifies bss, bss.ies
    ensures ap.bss == bss && HasErp(bss.es) && ap.Good() && ap.started && ap.erpEnabled
    ensures ap.stas.Keys == {0} && NoShortPreamble in ap.stas[0]
    ensures !ap.BarkerHonest()
  {
    ap := new Ap(bss, true, true, true, true, true, Channel(true, true, true));
    assert Carriers(ap.stas, NonErp) == {};
    ap.Start();
    ap.Allocate(0);
    ap.Join(0, Caps(false, false, true, true, true, true, false));
    assert NoShortPreamble in ap.stas[0];
    assert 0 in Carriers(ap.stas, NoShortPreamble);
  }

  /** A station that does not tolerate 40 MHz, and is otherwise modern, joins a 40 MHz AP in the 2.4 GHz band:
      the beacon still announces 40 MHz. */
  method WidthGoesStale(bss: Bss) returns (ap: Ap)
    requires bss.Valid() && !HasErp(bss.es) && |BodyOf(bss.es, HTINFO)| >= 4
    requires BodyOf(bss.es, HTINFO)[1] == 5 && BodyOf(bss.es, HTINFO)[2..4] == [0, 0]
    modifies bss, bss.ies
    ensures ap.bss == bss && ap.Good() && ap.Maintained() && ap.channel.wide && ap.channel.band24
    ensures ap.stas.Keys == {0} && ap.stas[0] == {Intolerant40} && Intolerant40 in ap.num && ap.Narrow()
    ensures BodyOf(bss.es, HTINFO)[1] % 8 == 5
  {
    ap := new Ap(bss, true, true, true, true, true, Channel(true, true, true));
    assert Carriers(ap.stas, NonErp) == {};
    ap.Start();
    ap.Allocate(0);
    var htOp := ap.htOp;
    hide Carriers, BodyOf;
    ap.Join(0, Caps(true, false, true, true, true, true, true));
    assert ap.stas[0] == {Intolerant40};
    OneStation(ap.stas, 0, Intolerant40);
    OneStation(ap.stas, 0, NoHt);
    OneStation(ap.stas, 0, NoHtGf);
    OneStation(ap.stas, 0, Ht20);
    assert ap.Drift(Intolerant40) == 0 && ap.Drift(NoHt) == 0 && ap.Drift(NoHtGf) == 0 && ap.Drift(Ht20) == 0;
    assert ap.htOp == htOp;
  }

  lemma OneStation(stas: Flags, id: nat, f: Flag)
    requires stas.Keys == {id}
    ensures Count(stas, f) == if f in stas[id] then 1 else 0
  {
    assert Carriers(stas, f) == if f in stas[id] then {id} else {};
  }

  /** A legacy station joins, the AP scans, the station leaves: the counter ends at -1 and the AP
      announces mixed mode with nobody associated. */
  method ScanLeavesMixedMode(bss: Bss) returns (ap: Ap)
    requires bss.Valid() && (HasHt(bss.es) ==> |BodyOf(bss.es, HTINFO)| >= 4)
    modifies bss, bss.ies
    ensures ap.Valid() && ap.stas.Keys == {0} && ap.stas[0] == {}
    ensures ap.num[NoHt] == -1 && ap.htOp.mode == Mixed && ap.htOp.nonHtPresent
  {
    ap := new Ap(bss, true, true, true, true, true, Channel(true, true, true));
    ap.Allocate(0);
    assert ap.Drift(NoHt) == 0;
    ap.Join(0, Caps(true, false, true, false, false, false, false));
    assert NoHt in ap.stas[0];
    assert Carriers(ap.stas, NoHt) == {0};
    ap.ScanDone(false);
    var _ := ap.Leave(0);
    assert Carriers(ap.stas, NoHt) == {};
    assert ap.Drift(NoHt) == -1;
  }

  /** Writing one octet of one element leaves the other elements as they are found. */
  lemma PatchKeeps(es: seq<Element>, k: nat, i: nat, v: byte, id: byte)
    requires k < |es| && i < |es[k].body|
    ensures var after := es[k := Element(es[k].id, es[k].body[i := v])];
            && First(after, id) == First(es, id)
            && BodyOf(after, id) == if First(es, id) == k then BodyOf(es, id)[i := v] else BodyOf(es, id)
  {
    var e: Element := Element(es[k].id, es[k].body[i := v]);
    var after := es[k := e];
    assert forall j | 0 <= j < |es| :: after[j].id == es[j].id;
    FirstIs(after, id, First(es, id));
  }

  lemma FirstIs(es: seq<Element>, id: byte, k: nat)
    requires k <= |es| && (k < |es| ==> es[k].id == id) && forall j | 0 <= j < k :: es[j].id != id
    ensures First(es, id) == k
  {
  }
}
