/** Expiry of silent stations: a timer tick ages every associated station, probes those whose time
    is up, and drops those that stay silent. */
module KeepAlive {
  import opened Options

  const TRIES: nat := 3

  /** `limit` is the full expiry count, `active` the switch for probe frames, `exempt` the
      certification mode in which nobody expires. */
  datatype Config = Config(limit: nat, active: bool, exempt: bool)

  /** `checking` is set once a sleeping station has been called through the TIM. */
  datatype Sta = Sta(expire: nat, tries: nat, asleep: bool, checking: bool, associated: bool)

  /** What one tick brings for a station: since the last tick, data or control frames counted, and an
      answer to the call (a PS-Poll, or a response to a block-ack request); at the tick, an answer to a
      probe. */
  datatype Event = Event(heard: bool, called: bool, answers: bool)

  const SILENT := Event(false, false, false)

  // ------------------------------------------------------------ one station, one tick

  function Aged(c: Config, s: Sta, heard: bool): Sta {
    if heard || s.expire == 0 then s.(expire := c.limit, tries := 0) else s.(expire := s.expire - 1)
  }

  /** The answer to a call ends it and gives the station its full time. */
  function Woken(c: Config, s: Sta, called: bool): Sta {
    if called && s.checking then s.(expire := c.limit, checking := false) else s
  }

  function Seen(c: Config, s: Sta, e: Event): Sta { Aged(c, Woken(c, s, e.called), e.heard) }

  /** A sleeping station is called first. */
  predicate Called(c: Config, s: Sta) { s.expire == 0 && !c.exempt && s.asleep && !s.checking }

  predicate Listed(c: Config, s: Sta) { s.expire == 0 && !c.exempt && (Called(c, s) ==> c.active) }

  function Marked(c: Config, s: Sta): Sta {
    if s.expire > 0 then s
    else if c.exempt then s.(expire := c.limit)
    else if Called(c, s) then s.(expire := c.limit, checking := true)
    else s
  }

  /** The check of a listed station: what becomes of it, or nothing if it is dropped. */
  function Checked(c: Config, s: Sta, answers: bool): Option<Sta> {
    if !s.associated then Some(s)
    else if c.active && answers then Some(s.(expire := c.limit, tries := 0))
    else if c.active && s.tries + 1 <= TRIES then Some(s.(expire := 1, tries := s.tries + 1))
    else None
  }

  function Tick(c: Config, s: Sta, e: Event): Option<Sta> {
    var aged := Seen(c, s, e);
    if Listed(c, aged) then Checked(c, Marked(c, aged), e.answers) else Some(Marked(c, aged))
  }

  function Life(c: Config, s: Sta, es: seq<Event>): Option<Sta>
    decreases |es|
  {
    if es == [] then Some(s)
    else
      match Tick(c, s, es[0])
      case Some(t) => Life(c, t, es[1..])
      case None => None
  }

  ghost predicate AllSilent(es: seq<Event>) { forall i | 0 <= i < |es| :: es[i] == SILENT }

  /** The tick at which a station that stays silent is dropped. */
  function LastTick(c: Config, s: Sta): nat
    requires s.tries <= TRIES
  {
    if s.expire == 0 then 1 + LastTickOf(c, s.(expire := c.limit, tries := 0))
    else LastTickOf(c, s)
  }

  function LastTickOf(c: Config, s: Sta): nat
    requires s.tries <= TRIES
  {
    if c.active then s.expire + TRIES - s.tries
    else if s.asleep && !s.checking then s.expire + c.limit
    else s.expire
  }

  /** A silent station is dropped at exactly that tick, not earlier and not later. */
  lemma {:induction false} SilentStationExpires(c: Config, s: Sta, es: seq<Event>)
    requires c.limit >= 1 && !c.exempt && s.associated && s.tries <= TRIES && AllSilent(es)
    ensures Life(c, s, es) == None <==> |es| >= LastTick(c, s)
    decreases |es|
  {
    if es != [] {
      match Tick(c, s, es[0]) {
        case Some(t) =>
          assert LastTick(c, t) == LastTick(c, s) - 1;
          SilentStationExpires(c, t, es[1..]);
        case None =>
      }
    }
  }

  /** The case the design speaks of: full count E, no try yet, probes on. */
  lemma FreshStationExpires(c: Config, s: Sta, es: seq<Event>)
    requires c.limit >= 1 && !c.exempt && c.active && s.associated && s.tries == 0 && s.expire == c.limit
    requires AllSilent(es)
    ensures Life(c, s, es) == None <==> |es| >= c.limit + 3
  {
    SilentStationExpires(c, s, es);
  }

  /** In certification mode nobody is dropped. */
  lemma {:induction false} ExemptStaysForEver(c: Config, s: Sta, es: seq<Event>)
    requires c.exempt
    ensures Life(c, s, es) != None
    decreases |es|
  {
    if es != [] {
      ExemptStaysForEver(c, Tick(c, s, es[0]).value, es[1..]);
    }
  }

  // ------------------------------------------------------------ stations that answer

  const ANSWERING := Event(false, false, true)

  /** Counting down from `limit` again and again. */
  function TicksLeft(n: nat, limit: nat): (left: nat)
    requires limit >= 1
    ensures 1 <= left <= limit
  {
    if n < limit then limit - n else TicksLeft(n - limit, limit)
  }

  /** A station that is otherwise silent but answers its probes is probed every `limit` ticks and gets its full
      count back each time, with no try on record. */
  lemma {:induction false} AnsweringStationStays(c: Config, s: Sta, es: seq<Event>)
    requires c.limit >= 1 && !c.exempt && c.active && s.associated && s.expire == c.limit && s.tries == 0
    requires forall i | 0 <= i < |es| :: es[i] == ANSWERING
    ensures var t := Life(c, s, es);
            && t.Some? && t.value.associated && t.value.tries == 0
            && t.value.expire == TicksLeft(|es|, c.limit)
  {
    if es != [] {
      var n := |es| - 1;
      var prev := es[..n];
      AnsweringStationStays(c, s, prev);
      LifeStep(c, s, prev, es[n]);
      assert es == prev + [es[n]];
      OneTickLess(n, c.limit);
    }
  }

  lemma {:induction false} OneTickLess(n: nat, limit: nat)
    requires limit >= 1
    ensures TicksLeft(n + 1, limit) == if TicksLeft(n, limit) > 1 then TicksLeft(n, limit) - 1 else limit
  {
    if n >= limit {
      OneTickLess(n - limit, limit);
    }
  }

  /** An answer clears the tries that came to nothing before. */
  lemma AnswerClearsTries(c: Config, s: Sta)
    requires c.limit >= 1 && !c.exempt && c.active && s.associated && s.expire == 1
    ensures var t := Tick(c, s, ANSWERING);
            t.Some? && t.value.expire == c.limit && t.value.tries == 0 && t.value.associated
  {
  }

  /** Whatever else it does, a station that answers every probe is never dropped with probes on. */
  lemma {:induction false} AnswererIsNeverDropped(c: Config, s: Sta, es: seq<Event>)
    requires c.active && forall i | 0 <= i < |es| :: es[i].answers
    ensures Life(c, s, es).Some?
    decreases |es|
  {
    if es != [] {
      AnswererIsNeverDropped(c, Tick(c, s, es[0]).value, es[1..]);
    }
  }

  /** With probes off, neither is a sleeping station that answers its calls. */
  lemma {:induction false} SleeperIsNeverDropped(c: Config, s: Sta, es: seq<Event>)
    requires !c.active && c.limit >= 1 && s.asleep && forall i | 0 <= i < |es| :: es[i].called
    ensures Life(c, s, es).Some?
    decreases |es|
  {
    if es != [] {
      SleeperIsNeverDropped(c, Tick(c, s, es[0]).value, es[1..]);
    }
  }

  /** The answer to a call ends the call and starts the count anew. */
  lemma CallIsAnswered(c: Config, s: Sta)
    requires c.limit >= 2 && s.checking
    ensures Tick(c, s, Event(false, true, false)) == Some(s.(expire := c.limit - 1, checking := false))
  {
  }

  /** A station that has gone from the association list meanwhile is not dropped again. */
  lemma GoneIsLeftAlone(c: Config, s: Sta, es: seq<Event>)
    requires !s.associated
    ensures Life(c, s, es).Some?
    decreases |es|
  {
    if es != [] {
      GoneIsLeftAlone(c, Tick(c, s, es[0]).value, es[1..]);
    }
  }

  // ------------------------------------------------------------ stations that are heard

  /** How many ticks at the end of a run went by without traffic. */
  function Quiet(es: seq<Event>): (n: nat)
    ensures n <= |es|
  {
    if es == [] || es[|es| - 1].heard then 0 else 1 + Quiet(es[..|es| - 1])
  }

  /** Heard at least once in every `n` consecutive ticks. */
  ghost predicate HeardEvery(es: seq<Event>, n: nat) {
    forall i | 0 <= i <= |es| - n :: HeardIn(es, i, n)
  }

  ghost predicate HeardIn(es: seq<Event>, i: nat, n: nat)
    requires i + n <= |es|
  {
    exists j | i <= j < i + n :: es[j].heard
  }

  lemma {:induction false} QuietIsSilence(es: seq<Event>, j: nat)
    requires |es| - Quiet(es) <= j < |es|
    ensures !es[j].heard
  {
    if j < |es| - 1 {
      QuietIsSilence(es[..|es| - 1], j);
    }
  }

  lemma {:induction false} LifeStep(c: Config, s: Sta, es: seq<Event>, e: Event)
    ensures Life(c, s, es + [e]) == match Life(c, s, es) case Some(t) => Tick(c, t, e) case None => None
    decreases |es|
  {
    if es == [] {
      assert (es + [e])[1..] == [];
    } else {
      assert (es + [e])[0] == es[0] && (es + [e])[1..] == es[1..] + [e];
      match Tick(c, s, es[0]) {
        case Some(t) => LifeStep(c, t, es[1..], e);
        case None =>
      }
    }
  }

  lemma QuietStep(es: seq<Event>, e: Event)
    ensures Quiet(es + [e]) == if e.heard then 0 else Quiet(es) + 1
  {
    assert (es + [e])[..|es|] == es;
  }

  /** A tick that does not bring the count to 0. */
  lemma TickWhileCounting(c: Config, s: Sta, e: Event)
    requires 1 <= s.expire <= c.limit && s.tries == 0 && (e.heard || s.expire > 1)
    ensures var t := Tick(c, s, e);
            && t.Some? && t.value.tries == 0 && t.value.expire <= c.limit
            && t.value.expire >= (if e.heard then c.limit else s.expire - 1)
            && (!s.checking ==> t.value == s.(expire := if e.heard then c.limit else s.expire - 1))
  {
  }

  /** While a station with a full count is never quiet for the whole limit, its count is at least the
      limit less the quiet ticks, and exactly that if it was not being called: it is never at 0, so never
      listed, called or probed. */
  lemma {:induction false} CountFollowsQuiet(c: Config, s: Sta, es: seq<Event>)
    requires c.limit >= 1 && s.expire == c.limit && s.tries == 0
    requires forall n | 0 <= n <= |es| :: Quiet(es[..n]) < c.limit
    ensures Life(c, s, es).Some?
    ensures var t := Life(c, s, es).value;
            && c.limit - Quiet(es) <= t.expire <= c.limit && t.tries == 0
            && (!s.checking ==> t == s.(expire := c.limit - Quiet(es)))
  {
    assert es[..|es|] == es;
    if es != [] {
      var n := |es| - 1;
      var prev := es[..n];
      assert forall m | 0 <= m <= n :: prev[..m] == es[..m];
      assert Quiet(es[..n]) < c.limit;
      CountFollowsQuiet(c, s, prev);
      hide Life, Tick;
      LifeStep(c, s, prev, es[n]);
      assert es == prev + [es[n]];
      QuietStep(prev, es[n]);
      TickWhileCounting(c, Life(c, s, prev).value, es[n]);
    }
  }

  lemma NeverQuietForTheLimit(es: seq<Event>, limit: nat, n: nat)
    requires limit >= 1 && HeardEvery(es, limit) && n <= |es|
    ensures Quiet(es[..n]) < limit
  {
    if Quiet(es[..n]) >= limit {
      var i := n - limit;
      assert HeardIn(es, i, limit);
      var j :| i <= j < i + limit && es[j].heard;
      QuietIsSilence(es[..n], j);
    }
  }

  /** A station heard at least once in every `limit` ticks is never listed, whatever the mode. */
  lemma HeardStationIsNeverListed(c: Config, s: Sta, es: seq<Event>, n: nat)
    requires c.limit >= 1 && s.expire == c.limit && s.tries == 0
    requires HeardEvery(es, c.limit) && n < |es|
    ensures Life(c, s, es[..n]).Some?
    ensures !Listed(c, Seen(c, Life(c, s, es[..n]).value, es[n]))
  {
    forall m | 0 <= m <= n
      ensures Quiet(es[..n][..m]) < c.limit
    {
      assert es[..n][..m] == es[..m];
      NeverQuietForTheLimit(es, c.limit, m);
    }
    CountFollowsQuiet(c, s, es[..n]);
    NeverQuietForTheLimit(es, c.limit, n + 1);
    assert es[..n + 1][..n] == es[..n] && es[..n + 1][n] == es[n];
  }

  // ------------------------------------------------------------ the association list

  ghost predicate Proper(list: seq<nat>, n: nat) {
    && (forall k | 0 <= k < |list| :: list[k] < n)
    && (forall j, k | 0 <= j < k < |list| :: list[j] != list[k])
  }

  /** The list without some stations, in the same order. */
  function Minus(list: seq<nat>, gone: set<nat>): (r: seq<nat>)
    ensures forall i :: i in r <==> i in list && i !in gone
  {
    if list == [] then []
    else (if list[0] in gone then [] else [list[0]]) + Minus(list[1..], gone)
  }

  lemma {:induction false} MinusIsProper(list: seq<nat>, gone: set<nat>, n: nat)
    requires Proper(list, n)
    ensures Proper(Minus(list, gone), n)
  {
    if list != [] {
      assert forall k | 0 <= k < |list[1..]| :: list[1..][k] == list[k + 1];
      MinusIsProper(list[1..], gone, n);
      var r := Minus(list[1..], gone);
      assert list[0] !in list[1..];
      assert list[0] !in r;
      if list[0] in gone {
        assert [] + r == r;
      } else {
        ConsIsProper(list[0], r, n);
      }
    }
  }

  lemma ConsIsProper(i: nat, r: seq<nat>, n: nat)
    requires Proper(r, n) && i < n && i !in r
    ensures Proper([i] + r, n)
  {
  }

  lemma {:induction false} MinusTwice(list: seq<nat>, a: set<nat>, b: set<nat>)
    ensures Minus(Minus(list, a), b) == Minus(list, a + b)
  {
    if list != [] {
      MinusTwice(list[1..], a, b);
      var r := Minus(list[1..], a);
      if list[0] in a {
        assert Minus(list, a) == r;
      } else {
        assert ([list[0]] + r)[1..] == r;
      }
    }
  }

  lemma {:induction false} MinusOne(list: seq<nat>, i: nat, n: nat)
    requires Proper(list, n)
    ensures |Minus(list, {i})| == if i in list then |list| - 1 else |list|
  {
    if list != [] {
      assert forall k | 0 <= k < |list[1..]| :: list[1..][k] == list[k + 1];
      MinusOne(list[1..], i, n);
    }
  }

  lemma {:induction false} MinusNone(list: seq<nat>)
    ensures Minus(list, {}) == list
  {
    if list != [] {
      MinusNone(list[1..]);
    }
  }

  ghost function Dropped(c: Config, list: seq<nat>, stas: seq<Sta>, es: seq<Event>): set<nat>
    requires |es| == |stas| && Proper(list, |stas|)
  {
    set i | i in list && i < |stas| && Tick(c, stas[i], es[i]) == None
  }

  /** The stations of `due` have been checked: `gone` are those to drop, the others are as the check
      leaves them, and the rest is untouched. */
  ghost predicate AllChecked(c: Config, before: seq<Sta>, after: seq<Sta>, due: seq<nat>, gone: set<nat>,
                             es: seq<Event>)
    requires |before| == |after| == |es|
  {
    && (forall i :: i in gone <==> i in due && i < |es| && Checked(c, before[i], es[i].answers) == None)
    && (forall i | 0 <= i < |after| && i !in due :: after[i] == before[i])
    && (forall i | 0 <= i < |after| && i in due && i !in gone :: Checked(c, before[i], es[i].answers) == Some(after[i]))
  }

  lemma OneMore(c: Config, before: seq<Sta>, mid: seq<Sta>, after: seq<Sta>, due: seq<nat>, i: nat,
                gone: set<nat>, gone': set<nat>, es: seq<Event>)
    requires |before| == |mid| == |after| == |es| && i < |es| && i !in due
    requires AllChecked(c, before, mid, due, gone, es)
    requires forall j | 0 <= j < |es| && j != i :: after[j] == mid[j]
    requires gone' == if Checked(c, mid[i], es[i].answers) == None then gone + {i} else gone
    requires i !in gone' ==> Checked(c, mid[i], es[i].answers) == Some(after[i])
    ensures AllChecked(c, before, after, due + [i], gone', es)
  {
  }

  class Ap {
    const c: Config
    var stas: seq<Sta>  // the station records
    var list: seq<nat>  // the association list, as record numbers
    var count: int

    ghost predicate Valid() reads this { Proper(list, |stas|) && count == |list| }

    constructor (c: Config, n: nat)
      ensures Valid() && list == [] && |stas| == n && this.c == c
    {
      this.c := c;
      stas := seq(n, _ => Sta(c.limit, 0, false, false, false));
      list, count := [], 0;
    }

    /** First walk: age every listed station and note those whose time is up. */
    method AgeAll(es: seq<Event>) returns (due: seq<nat>)
      requires Valid() && |es| == |stas|
      modifies this`stas
      ensures |stas| == old(|stas|)
      ensures forall i | 0 <= i < |stas| ::
                stas[i] == if i in list then Marked(c, Seen(c, old(stas[i]), es[i])) else old(stas[i])
      ensures Proper(due, |stas|)
      ensures forall i :: i in due <==> i in list && i < |stas| && Listed(c, Seen(c, old(stas)[i], es[i]))
    {
      due := [];
      for k := 0 to |list|
        invariant |stas| == old(|stas|)
        invariant forall i | 0 <= i < |stas| ::
                    stas[i] == if i in list[..k] then Marked(c, Seen(c, old(stas[i]), es[i])) else old(stas[i])
        invariant Proper(due, |stas|)
        invariant forall i :: i in due <==> i in list[..k] && i < |stas| && Listed(c, Seen(c, old(stas)[i], es[i]))
      {
        var i := list[k];
        assert i !in list[..k];
        assert list[..k + 1] == list[..k] + [i];
        var aged := Seen(c, stas[i], es[i]);
        stas := stas[i := Marked(c, aged)];
        if Listed(c, aged) {
          due := due + [i];
        }
      }
      assert list[..|list|] == list;
    }

    method Unlink(i: nat)
      requires Valid()
      modifies this`list, this`count
      ensures Valid() && list == Minus(old(list), {i})
    {
      MinusIsProper(list, {i}, |stas|);
      MinusOne(list, i, |stas|);
      if i in list {
        count := count - 1;
      }
      list := Minus(list, {i});
    }

    /** The check of one station that is due. */
    method CheckOne(i: nat, answers: bool) returns (gone: bool)
      requires Valid() && i < |stas|
      modifies this`stas, this`list, this`count
      ensures Valid() && |stas| == old(|stas|)
      ensures forall j | 0 <= j < |stas| && j != i :: stas[j] == old(stas[j])
      ensures gone <==> Checked(c, old(stas[i]), answers) == None
      ensures !gone ==> Checked(c, old(stas[i]), answers) == Some(stas[i]) && list == old(list)
      ensures gone ==> list == Minus(old(list), {i})
    {
      var s := Checked(c, stas[i], answers);
      if s.Some? {
        stas := stas[i := s.value];
        return false;
      }
      stas := stas[i := stas[i].(tries := 0)];
      Unlink(i);
      gone := true;
    }

    /** Second walk: check the stations that are due; drop those that are gone. */
    method CheckAll(due: seq<nat>, es: seq<Event>) returns (ghost gone: set<nat>)
      requires Valid() && |es| == |stas| && Proper(due, |stas|)
      modifies this`stas, this`list, this`count
      ensures Valid() && |stas| == old(|stas|)
      ensures list == Minus(old(list), gone)
      ensures AllChecked(c, old(stas), stas, due, gone, es)
    {
      gone := {};
      MinusNone(list);
      for k := 0 to |due|
        invariant Valid() && |stas| == old(|stas|)
        invariant list == Minus(old(list), gone)
        invariant AllChecked(c, old(stas), stas, due[..k], gone, es)
      {
        var i := due[k];
        ghost var mid, before := stas, gone;
        assert i !in due[..k];
        assert due[..k + 1] == due[..k] + [i];
        var drop := CheckOne(i, es[i].answers);
        if drop {
          MinusTwice(old(list), gone, {i});
          gone := gone + {i};
        }
        OneMore(c, old(stas), mid, stas, due[..k], i, before, gone, es);
      }
      assert due[..|due|] == due;
    }

    /** One tick of the timer. */
    method TimerTick(es: seq<Event>)
      requires Valid() && |es| == |stas|
      modifies this`stas, this`list, this`count
      ensures Valid() && |stas| == old(|stas|)
      ensures list == Minus(old(list), Dropped(c, old(list), old(stas), es))
      ensures forall i | i in list :: i in old(list) && i < |stas| && Tick(c, old(stas)[i], es[i]) == Some(stas[i])
    {
      var due := AgeAll(es);
      ghost var gone := CheckAll(due, es);
      assert gone == Dropped(c, old(list), old(stas), es);
    }

    /** Every run: who is still listed, and with what count, is what `Life` says of each station on
        its own; the counter is the length of the list throughout. */
    method Ticks(ess: seq<seq<Event>>)
      requires Valid() && forall t | 0 <= t < |ess| :: |ess[t]| == |stas|
      modifies this`stas, this`list, this`count
      ensures Valid() && |stas| == old(|stas|)
      ensures forall i | 0 <= i < |stas| ::
                i in list <==> i in old(list) && Life(c, old(stas)[i], Column(ess, |stas|, i)).Some?
      ensures forall i | 0 <= i < |stas| && i in list ::
                Life(c, old(stas)[i], Column(ess, |stas|, i)) == Some(stas[i])
    {
      for t := 0 to |ess|
        invariant Valid() && |stas| == old(|stas|)
        invariant forall i | 0 <= i < |stas| ::
                    i in list <==> i in old(list) && Life(c, old(stas)[i], Column(ess[..t], |stas|, i)).Some?
        invariant forall i | 0 <= i < |stas| && i in list ::
                    Life(c, old(stas)[i], Column(ess[..t], |stas|, i)) == Some(stas[i])
      {
        forall i | 0 <= i < |stas|
          ensures Life(c, old(stas)[i], Column(ess[..t + 1], |stas|, i)) ==
                  match Life(c, old(stas)[i], Column(ess[..t], |stas|, i))
                  case Some(s) => Tick(c, s, ess[t][i])
                  case None => None
        {
          assert Column(ess[..t + 1], |stas|, i) == Column(ess[..t], |stas|, i) + [ess[t][i]];
          LifeStep(c, old(stas)[i], Column(ess[..t], |stas|, i), ess[t][i]);
        }
        TimerTick(ess[t]);
      }
      assert ess[..|ess|] == ess;
    }
  }

  /** What a run brings for one station. */
  ghost function Column(ess: seq<seq<Event>>, n: nat, i: nat): (es: seq<Event>)
    requires i < n && forall t | 0 <= t < |ess| :: |ess[t]| == n
    ensures |es| == |ess| && forall t | 0 <= t < |ess| :: es[t] == ess[t][i]
  {
    seq(|ess|, t requires 0 <= t < |ess| => ess[t][i])
  }
}
