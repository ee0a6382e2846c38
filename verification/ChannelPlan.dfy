/** The channel set built from a regulatory channel plan, the direct query of the plan, and the
    beacon hints that lift the no-transmit restriction of a channel. */
module ChannelPlan {
  import opened Options

  datatype Attrib = Attrib(passive12to14: bool, passive1: bool, passive2: bool, passive3: bool, passive4: bool,
                           dfs2: bool, dfs3: bool, dfs4: bool)

  datatype Flags = Flags(noIr: bool, dfs: bool)

  datatype Band = Band24 | Band5

  datatype ChInfo = ChInfo(band: Band, ch: nat, flags: Flags)

  datatype Plan = Plan(two: seq<nat>, five: seq<nat>, attrib: Attrib)

  /** What the device and the registry allow: bands, DFS support, excluded channels. */
  datatype Rules = Rules(has24: bool, has5: bool, dfs: bool, excl: seq<nat>)

  const ZERO := ChInfo(Band24, 0, Flags(false, false))

  predicate Band1(ch: nat) { 36 <= ch <= 48 }

  predicate Band2(ch: nat) { 52 <= ch <= 64 }

  predicate Band3(ch: nat) { 100 <= ch <= 144 }

  predicate Band4(ch: nat) { 149 <= ch <= 177 }

  // ------------------------------------------------------------ the direct query

  const NONE := Flags(false, false)

  /** The flags as the query gathers them, from cleared flags on. */
  function QueryFlags(a: Attrib, ch: nat): Flags {
    if ch > 14 then
      var passive := || (Band1(ch) && a.passive1)
                     || (Band2(ch) && a.passive2)
                     || (Band3(ch) && a.passive3)
                     || (Band4(ch) && a.passive4);
      var f := if passive then NONE.(noIr := true) else NONE;
      if (Band2(ch) && a.dfs2) || (Band3(ch) && a.dfs3) || (Band4(ch) && a.dfs4) then f.(dfs := true) else f
    else if 12 <= ch <= 14 && a.passive12to14 then NONE.(noIr := true)
    else NONE
  }

  function Query(p: Plan, ch: nat): Option<Flags> {
    if ch in (if ch > 14 then p.five else p.two) then Some(QueryFlags(p.attrib, ch)) else None
  }

  method GetCh(p: Plan, ch: nat) returns (r: Option<Flags>)
    ensures r == Query(p, ch)
    ensures r.Some? <==> (ch <= 14 && ch in p.two) || (ch > 14 && ch in p.five)
    ensures r.Some? ==>
              (r.value.noIr <==>
                 || (12 <= ch <= 14 && p.attrib.passive12to14)
                 || (36 <= ch <= 48 && p.attrib.passive1)
                 || (52 <= ch <= 64 && p.attrib.passive2)
                 || (100 <= ch <= 144 && p.attrib.passive3)
                 || (149 <= ch <= 177 && p.attrib.passive4))
    ensures r.Some? ==>
              (r.value.dfs <==>
                 || (52 <= ch <= 64 && p.attrib.dfs2)
                 || (100 <= ch <= 144 && p.attrib.dfs3)
                 || (149 <= ch <= 177 && p.attrib.dfs4))
  {
    var flags, a := NONE, p.attrib;
    if ch > 14 {
      for i := 0 to |p.five|
        invariant ch !in p.five[..i]
      {
        if p.five[i] == ch {
          if (Band1(ch) && a.passive1) || (Band2(ch) && a.passive2)
             || (Band3(ch) && a.passive3) || (Band4(ch) && a.passive4) {
            flags := flags.(noIr := true);
          }
          if (Band2(ch) && a.dfs2) || (Band3(ch) && a.dfs3) || (Band4(ch) && a.dfs4) {
            flags := flags.(dfs := true);
          }
          return Some(flags);
        }
      }
    } else {
      for i := 0 to |p.two|
        invariant ch !in p.two[..i]
      {
        if p.two[i] == ch {
          if 12 <= ch <= 14 && a.passive12to14 {
            flags := flags.(noIr := true);
          }
          return Some(flags);
        }
      }
    }
    r := None;
  }

  /** The exclusion list ends at its first 0. */
  predicate Excluded(excl: seq<nat>, ch: nat) {
    excl != [] && excl[0] != 0 && (excl[0] == ch || Excluded(excl[1..], ch))
  }

  method IsExcluded(excl: seq<nat>, ch: nat) returns (r: bool)
    ensures r == Excluded(excl, ch)
  {
    for i := 0 to |excl|
      invariant Excluded(excl, ch) == Excluded(excl[i..], ch)
    {
      assert excl[i..][1..] == excl[i + 1..];
      if excl[i] == 0 {
        return false;
      }
      if excl[i] == ch {
        return true;
      }
    }
    r := false;
  }

  /** Which is to say: the channel is in the list before any 0. */
  lemma {:induction false} ExcludedMeans(excl: seq<nat>, ch: nat)
    ensures Excluded(excl, ch) <==>
            exists i | 0 <= i < |excl| :: excl[i] == ch != 0 && 0 !in excl[..i]
  {
    if excl != [] {
      ExcludedMeans(excl[1..], ch);
      assert forall i | 0 <= i < |excl[1..]| :: excl[1..][i] == excl[i + 1];
      assert forall i | 0 < i < |excl| :: excl[..i] == [excl[0]] + excl[1..][..i - 1];
      if Excluded(excl, ch) && excl[0] != ch {
        var i :| 0 <= i < |excl[1..]| && excl[1..][i] == ch != 0 && 0 !in excl[1..][..i];
        assert excl[i + 1] == ch && 0 !in excl[..i + 1];
      }
      if i :| 0 <= i < |excl| && excl[i] == ch != 0 && 0 !in excl[..i] {
        if i > 0 {
          assert excl[0] in excl[..i];
          assert 0 !in excl[1..][..i - 1];
          assert excl[1..][i - 1] == ch;
        }
      }
    }
  }

  // ------------------------------------------------------------ the built set

  /** Whether the build takes a channel for a DFS channel. */
  predicate BuildDfs(a: Attrib, band: Band, ch: nat) {
    band == Band5 && ((Band2(ch) && a.dfs2) || (Band3(ch) && a.dfs3) || (Band4(ch) && a.dfs4))
  }

  /** Whether the build marks a channel as one not to transmit on. */
  predicate BuildNoIr(a: Attrib, band: Band, ch: nat) {
    match band
    case Band24 => 12 <= ch <= 14 && a.passive12to14
    case Band5 =>
      (Band1(ch) && a.passive1) || (Band2(ch) && a.passive2) || (Band3(ch) && a.passive3) || (Band4(ch) && a.passive4)
  }

  predicate Wanted(r: Rules, a: Attrib, band: Band, ch: nat) {
    !Excluded(r.excl, ch) && (BuildDfs(a, band, ch) ==> r.dfs)
  }

  function Entry(a: Attrib, band: Band, ch: nat): ChInfo {
    ChInfo(band, ch, Flags(BuildNoIr(a, band, ch), BuildDfs(a, band, ch)))
  }

  /** The build and the query, each with its own computation, flag a channel alike, if its band is the
      one its number says. */
  lemma FlagsAgree(a: Attrib, band: Band, ch: nat)
    ensures band == (if ch > 14 then Band5 else Band24) ==> Entry(a, band, ch).flags == QueryFlags(a, ch)
  {
  }

  /** The channels of a list that the rules let through. */
  function Listed(r: Rules, a: Attrib, band: Band, chs: seq<nat>): seq<ChInfo> {
    if chs == [] then []
    else (if Wanted(r, a, band, chs[0]) then [Entry(a, band, chs[0])] else []) + Listed(r, a, band, chs[1..])
  }

  /** Every channel the plan offers and the rules let through, in plan order. */
  function Offered(r: Rules, p: Plan): seq<ChInfo> {
    (if r.has24 then Listed(r, p.attrib, Band24, p.two) else [])
    + if r.has5 then Listed(r, p.attrib, Band5, p.five) else []
  }

  lemma {:induction false} ListedHas(r: Rules, a: Attrib, band: Band, chs: seq<nat>, c: ChInfo)
    ensures c in Listed(r, a, band, chs) <==>
            c.ch in chs && Wanted(r, a, band, c.ch) && c == Entry(a, band, c.ch)
  {
    if chs != [] {
      ListedHas(r, a, band, chs[1..], c);
    }
  }

  /** The two channel lists of a plan are split at channel 14. */
  ghost predicate Split(p: Plan) {
    && (forall ch | ch in p.two :: ch <= 14)
    && (forall ch | ch in p.five :: ch > 14)
  }

  /** What the query and the rules say of an entry. */
  ghost predicate Permitted(r: Rules, p: Plan, c: ChInfo) {
    && c.band == (if c.ch > 14 then Band5 else Band24)
    && Query(p, c.ch) == Some(c.flags)
    && (if c.ch > 14 then r.has5 else r.has24)
    && !Excluded(r.excl, c.ch)
    && (c.flags.dfs ==> r.dfs)
  }

  /** A channel is offered, with given flags, exactly if the query finds it with those flags, the device
      has its band, it is not excluded, and DFS is there if it needs it. */
  lemma SetAgreesWithQuery(r: Rules, p: Plan, c: ChInfo)
    requires Split(p)
    ensures c in Offered(r, p) <==> Permitted(r, p, c)
  {
    ListedHas(r, p.attrib, Band24, p.two, c);
    ListedHas(r, p.attrib, Band5, p.five, c);
    FlagsAgree(p.attrib, c.band, c.ch);
  }

  /** As much of a list as there is room for. */
  function Cut(s: seq<ChInfo>, n: nat): seq<ChInfo> { if |s| <= n then s else s[..n] }

  lemma CutTwice(s: seq<ChInfo>, t: seq<ChInfo>, n: nat)
    ensures Cut(Cut(s, n) + t, n) == Cut(s + t, n)
    ensures |s| <= n ==> Cut(s, n) == s
  {
    if |s| > n {
      assert (s[..n] + t)[..n] == (s + t)[..n];
    }
  }

  lemma CutIs(s: seq<ChInfo>, n: nat)
    ensures |Cut(s, n)| == if |s| <= n then |s| else n
    ensures Cut(s, n) == s[..|Cut(s, n)|]
    ensures |s| <= n ==> Cut(s, n) == s
  {
  }

  lemma OfferedIsPermitted(r: Rules, p: Plan)
    requires Split(p)
    ensures forall c: ChInfo :: c in Offered(r, p) <==> Permitted(r, p, c)
  {
    forall c: ChInfo
      ensures c in Offered(r, p) <==> Permitted(r, p, c)
    {
      SetAgreesWithQuery(r, p, c);
    }
  }

  ghost predicate Blank(a: array<ChInfo>, n: nat)
    requires n <= a.Length
    reads a
  {
    forall i | n <= i < a.Length :: a[i] == ZERO
  }

  /** One entry, its flags added to the cleared ones. */
  method PutEntry(a: Attrib, band: Band, ch: nat, chset: array<ChInfo>, size: nat)
    requires size < chset.Length && Blank(chset, size)
    modifies chset
    ensures chset[..size + 1] == old(chset[..size]) + [Entry(a, band, ch)] && Blank(chset, size + 1)
  {
    chset[size] := chset[size].(band := band, ch := ch);
    if BuildNoIr(a, band, ch) {
      chset[size] := chset[size].(flags := chset[size].flags.(noIr := true));
    }
    if BuildDfs(a, band, ch) {
      chset[size] := chset[size].(flags := chset[size].flags.(dfs := true));
    }
    assert chset[..size] == old(chset[..size]);
  }

  /** Appends the wanted channels of one band while there is room. */
  method Fill(r: Rules, a: Attrib, band: Band, chs: seq<nat>, chset: array<ChInfo>, n: nat) returns (size: nat)
    requires n <= chset.Length && Blank(chset, n)
    modifies chset
    ensures size <= chset.Length && Blank(chset, size)
    ensures chset[..size] == Cut(old(chset[..n]) + Listed(r, a, band, chs), chset.Length)
  {
    size := n;
    var i := 0;
    while i < |chs|
      invariant i <= |chs| && n <= size <= chset.Length && Blank(chset, size)
      invariant chset[..size] + Listed(r, a, band, chs[i..]) == old(chset[..n]) + Listed(r, a, band, chs)
      decreases |chs| - i
    {
      var ch := chs[i];
      assert chs[i..][1..] == chs[i + 1..];
      i := i + 1;
      var excluded := IsExcluded(r.excl, ch);
      if excluded || (BuildDfs(a, band, ch) && !r.dfs) {
        continue;
      }
      if size >= chset.Length {
        break;
      }
      PutEntry(a, band, ch, chset, size);
      size := size + 1;
    }
  }

  /** Builds the set from scratch: everything offered, as far as it fits. */
  method BuildSet(r: Rules, p: Plan, chset: array<ChInfo>) returns (size: nat)
    modifies chset
    ensures size <= chset.Length && Blank(chset, size)
    ensures size == if |Offered(r, p)| <= chset.Length then |Offered(r, p)| else chset.Length
    ensures chset[..size] == Offered(r, p)[..size]
    ensures Split(p) && |Offered(r, p)| <= chset.Length ==>
              forall c: ChInfo :: c in chset[..size] <==> Permitted(r, p, c)
  {
    forall i | 0 <= i < chset.Length {
      chset[i] := ZERO;
    }
    hide Cut, Listed, Permitted, Split;
    size := 0;
    ghost var two := if r.has24 then Listed(r, p.attrib, Band24, p.two) else [];
    ghost var five := if r.has5 then Listed(r, p.attrib, Band5, p.five) else [];
    CutTwice(two, [], chset.Length);
    CutTwice(two, five, chset.Length);
    assert two + [] == two && chset[..0] + two == two;
    if r.has24 {
      size := Fill(r, p.attrib, Band24, p.two, chset, size);
    }
    if r.has5 {
      size := Fill(r, p.attrib, Band5, p.five, chset, size);
    }
    CutIs(Offered(r, p), chset.Length);
    if Split(p) {
      OfferedIsPermitted(r, p);
    }
  }

  // ------------------------------------------------------------ beacon hints

  /** Hints do not count on channels 1 to 11 of the 2.4 GHz band, nor on DFS channels. */
  predicate HintAllowed(c: ChInfo) { !(c.band == Band24 && c.ch <= 11) && !c.flags.dfs }

  /** The first entry for a channel; the set ends at the first entry without a channel. */
  function Search(s: seq<ChInfo>, ch: nat): (k: nat)
    ensures k <= |s|
    ensures k < |s| ==> s[k].ch == ch != 0
    ensures forall j | 0 <= j < k && k < |s| :: s[j].ch != ch
  {
    if s == [] || s[0].ch == 0 then |s|
    else if s[0].ch == ch then 0
    else 1 + Search(s[1..], ch)
  }

  method SearchCh(chset: array<ChInfo>, ch: nat) returns (k: nat)
    ensures k == Search(chset[..], ch)
  {
    k := 0;
    while k < chset.Length && chset[k].ch != 0
      invariant k <= chset.Length
      invariant Search(chset[..], ch) == k + Search(chset[k..], ch)
    {
      assert chset[k..][1..] == chset[k + 1..];
      if chset[k].ch == ch {
        return;
      }
      k := k + 1;
    }
    k := chset.Length;
  }

  function Hinted(s: seq<ChInfo>, allow: bool, ch: nat): (r: seq<ChInfo>)
    ensures |r| == |s|
  {
    var k := Search(s, ch);
    if k < |s| && s[k].flags.noIr && allow && HintAllowed(s[k]) then s[k := s[k].(flags := s[k].flags.(noIr := false))]
    else s
  }

  method BeaconHint(chset: array<ChInfo>, allow: bool, ch: nat) returns (count: nat)
    modifies chset
    ensures chset[..] == Hinted(old(chset[..]), allow, ch)
    ensures count == 0 <==> chset[..] == old(chset[..])
    ensures count <= 1
  {
    var k := SearchCh(chset, ch);
    if k < chset.Length && chset[k].flags.noIr && allow && HintAllowed(chset[k]) {
      chset[k] := chset[k].(flags := chset[k].flags.(noIr := false));
      return 1;
    }
    count := 0;
  }

  function AllHinted(s: seq<ChInfo>, allow: bool, chs: seq<nat>): (r: seq<ChInfo>)
    ensures |r| == |s|
  {
    if chs == [] then s else Hinted(AllHinted(s, allow, chs[..|chs| - 1]), allow, chs[|chs| - 1])
  }

  lemma {:induction false} SearchIgnoresFlags(s: seq<ChInfo>, t: seq<ChInfo>, ch: nat)
    requires |s| == |t| && forall i | 0 <= i < |s| :: s[i].ch == t[i].ch
    ensures Search(s, ch) == Search(t, ch)
  {
    if s != [] {
      SearchIgnoresFlags(s[1..], t[1..], ch);
    }
  }

  lemma {:induction false} SearchIs(s: seq<ChInfo>, k: nat)
    requires k < |s|
    ensures Search(s, s[k].ch) == k <==> s[k].ch != 0 && forall j | 0 <= j < k :: s[j].ch != s[k].ch && s[j].ch != 0
    decreases |s|
  {
    if k > 0 {
      SearchIs(s[1..], k - 1);
      assert forall j | 0 <= j < k - 1 :: s[1..][j] == s[j + 1];
      assert forall j | 0 < j < k :: s[j] == s[1..][j - 1];
    }
  }

  /** After any hints, an entry differs from what it was at most in the no-transmit flag, and that is
      lifted exactly if hints are allowed, one came for its channel, it is the channel's first entry,
      and it is neither a DFS channel nor one of channels 1 to 11. */
  lemma {:induction false} HintsOnlyLift(s: seq<ChInfo>, allow: bool, chs: seq<nat>, k: nat)
    requires k < |s|
    ensures AllHinted(s, allow, chs)[k] ==
            if && allow && s[k].ch in chs
               && s[k].ch != 0 && (forall j | 0 <= j < k :: s[j].ch != s[k].ch && s[j].ch != 0)
               && !s[k].flags.dfs && (s[k].band == Band24 ==> s[k].ch > 11)
            then s[k].(flags := s[k].flags.(noIr := false)) else s[k]
  {
    SearchIs(s, k);
    if chs != [] {
      var n := |chs| - 1;
      var prev := chs[..n];
      var t := AllHinted(s, allow, prev);
      forall i | 0 <= i < |s|
        ensures t[i].ch == s[i].ch && t[i].band == s[i].band && t[i].flags.dfs == s[i].flags.dfs
      {
        HintsOnlyLift(s, allow, prev, i);
      }
      HintsOnlyLift(s, allow, prev, k);
      SearchIgnoresFlags(s, t, chs[n]);
      assert chs == prev + [chs[n]];
    }
  }
}
