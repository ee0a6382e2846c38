/** The NAT2.5 database seen as records: sixteen buckets, each a list of records, newest first.
    What the bridge promises is stated here; `Nat25` proves the linked structure implements it. */
module Nat25Records {
  import opened Bytes
  import opened Options
  import opened Seqs

  const HASH_SIZE: nat := 16
  const ADDR_LEN: nat := 17
  const AGEING_SECONDS: nat := 300

  const IPV4: byte := 1
  const IPV6: byte := 2
  const PPPOE: byte := 5

  const BROADCAST: seq<byte> := [255, 255, 255, 255, 255, 255]

  type Addr = a: seq<byte> | |a| == ADDR_LEN witness seq(ADDR_LEN, _ => 0)

  datatype Rec = Rec(addr: Addr, mac: seq<byte>, stamp: nat, uses: nat)

  type Bucket = seq<Rec>

  // ------------------------------------------------------------ hashing

  /** Exclusive or of the low four bits. */
  function Xor4(x: nat, y: nat): (z: nat)
    ensures z < HASH_SIZE
  {
    (x + y) % 2 + 2 * ((x / 2 + y / 2) % 2) + 4 * ((x / 4 + y / 4) % 2) + 8 * ((x / 8 + y / 8) % 2)
  }

  function XorAll(s: seq<byte>): (z: nat)
    ensures z < HASH_SIZE
  {
    if s == [] then 0 else Xor4(s[0], XorAll(s[1..]))
  }

  /** `__nat25_network_hash`, in the build without IPX. */
  function Hash(a: Addr): (h: nat)
    ensures h < HASH_SIZE
  {
    if a[0] == IPV4 then XorAll(a[7..11])
    else if a[0] == PPPOE then XorAll(a[0..9])
    else if a[0] == IPV6 then XorAll(a[1..17])
    else XorAll(a)
  }

  /** `__nat25_generate_ipv4_network_addr`. */
  function Ipv4(ip: seq<byte>): Addr
    requires |ip| == 4
  {
    [IPV4, 0, 0, 0, 0, 0, 0] + ip + [0, 0, 0, 0, 0, 0]
  }

  /** How many octets have the bit. */
  function Bits(s: seq<byte>, j: nat): nat { if s == [] then 0 else (if Bit(s[0], j) then 1 else 0) + Bits(s[1..], j) }

  lemma Digits(a: nat, b: nat, c: nat, d: nat)
    requires a < 2 && b < 2 && c < 2 && d < 2
    ensures var z := a + 2 * b + 4 * c + 8 * d; z % 2 == a && z / 2 % 2 == b && z / 4 % 2 == c && z / 8 % 2 == d
  {
  }

  lemma XorBit(x: nat, y: nat, j: nat)
    requires j < 4
    ensures Xor4(x, y) / Pow2(j) % 2 == (x / Pow2(j) + y / Pow2(j)) % 2
  {
    Digits((x + y) % 2, (x / 2 + y / 2) % 2, (x / 4 + y / 4) % 2, (x / 8 + y / 8) % 2);
    if j == 0 {
      assert Pow2(0) == 1;
    } else if j == 1 {
      assert Pow2(1) == 2;
    } else if j == 2 {
      assert Pow2(2) == 4;
    } else {
      assert Pow2(3) == 8;
    }
  }

  lemma {:induction false} XorAllBit(s: seq<byte>, j: nat)
    requires j < 4
    ensures Bit(XorAll(s), j) <==> Bits(s, j) % 2 == 1
  {
    hide Xor4, Pow2;
    if s == [] {
      assert 0 / Pow2(j) == 0;
    } else {
      XorAllBit(s[1..], j);
      XorBit(s[0], XorAll(s[1..]), j);
      ParityStep(s[0] / Pow2(j), XorAll(s[1..]) / Pow2(j), Bits(s[1..], j));
    }
  }

  lemma ParityStep(x: int, y: int, n: nat)
    requires y % 2 == 1 <==> n % 2 == 1
    ensures (x + y) % 2 == 1 <==> ((if x % 2 == 1 then 1 else 0) + n) % 2 == 1
  {
  }

  /** The bucket of an address: bit by bit, the parity of the octets that name it, which are four for an IP
      address, session and MAC (with the kind) for PPPoE, sixteen for IPv6, and else all. */
  lemma HashIsParity(a: Addr, j: nat)
    requires j < 4
    ensures a[0] == 1 ==> (Bit(Hash(a), j) <==> Bits(a[7..11], j) % 2 == 1)
    ensures a[0] == 5 ==> (Bit(Hash(a), j) <==> Bits(a[..9], j) % 2 == 1)
    ensures a[0] == 2 ==> (Bit(Hash(a), j) <==> Bits(a[1..], j) % 2 == 1)
    ensures a[0] != 1 && a[0] != 5 && a[0] != 2 ==> (Bit(Hash(a), j) <==> Bits(a, j) % 2 == 1)
    ensures forall ip: seq<byte> | |ip| == 4 && a == Ipv4(ip) :: a[0] == 1 && a[7..11] == ip
  {
    XorAllBit(a[7..11], j);
    XorAllBit(a[..9], j);
    XorAllBit(a[1..], j);
    XorAllBit(a, j);
    assert a[0..9] == a[..9] && a[1..17] == a[1..];
  }

  // ------------------------------------------------------------ time

  /** The kernel clock: `jiffies` counts modulo `period`, `hz` ticks a second. */
  datatype Clock = Clock(period: nat, hz: nat)

  predicate ValidClock(c: Clock) {
    c.period > 0 && c.period % 2 == 0 && c.hz > 0 && 2 * AGEING_SECONDS * c.hz < c.period
  }

  /** Unsigned subtraction of two counter values. */
  function Minus(c: Clock, x: nat, y: nat): nat
    requires x < c.period && y < c.period
  {
    if x >= y then x - y else x - y + c.period
  }

  /** `__nat25_has_expired`: `time_before_eq(stamp, jiffies - AGE)`, that is, the wrapped
      difference read as a signed number is not negative. */
  predicate Expired(c: Clock, stamp: nat, jiffies: nat)
    requires ValidClock(c)
  {
    var limit := Minus(c, jiffies % c.period, AGEING_SECONDS * c.hz);
    Minus(c, limit, stamp % c.period) < c.period / 2
  }

  /** Within one counter period the test is right up to half a period past the ageing time; after
      that an old record looks fresh again. */
  lemma ExpiredMeansAged(c: Clock, stamped: nat, now: nat)
    requires ValidClock(c) && stamped <= now < stamped + c.period
    ensures Expired(c, stamped, now) <==>
            AGEING_SECONDS * c.hz <= now - stamped < AGEING_SECONDS * c.hz + c.period / 2
  {
    ElapsedSurvivesWrap(c, stamped, now);
  }

  lemma ElapsedSurvivesWrap(c: Clock, stamped: nat, now: nat)
    requires c.period > 0 && stamped <= now < stamped + c.period
    ensures Minus(c, now % c.period, stamped % c.period) == now - stamped
  {
    var p := c.period;
    AtMostOneWrap(p, now / p, stamped / p, now % p, stamped % p, now, stamped);
  }

  lemma AtMostOneWrap(p: nat, a: int, b: int, r: nat, s: nat, now: nat, stamped: nat)
    requires r < p && s < p && now == p * a + r && stamped == p * b + s && stamped <= now < stamped + p
    ensures now - stamped == if r >= s then r - s else r - s + p
  {
    assert now - stamped == p * (a - b) + (r - s);
    if a - b >= 2 {
      TimesAtLeast(p, a - b - 1);
    } else if a - b <= -1 {
      TimesAtLeast(p, b - a);
    }
  }

  lemma TimesAtLeast(p: int, n: int)
    requires p >= 0 && n >= 1
    ensures p * n >= p
  {
    assert p * n == p + p * (n - 1);
  }

  // ------------------------------------------------------------ the comparison

  /** How the key comparison helper answers: as `memcmp` does (zero on equal octets), which is how
      the bridge code uses it, or as `_rtw_memcmp` of this driver does (true on equal octets). */
  datatype Helper = LikeMemcmp | TrueOnEqual

  /** The test `!_rtw_memcmp(x, y, n)` of the bridge code. */
  predicate Hit(h: Helper, x: Addr, y: Addr) {
    match h
    case LikeMemcmp => x == y
    case TrueOnEqual => x != y
  }

  /** The first record the search stops at. */
  function Find(h: Helper, b: Bucket, a: Addr): (k: nat)
    ensures k <= |b|
    ensures forall j | 0 <= j < k :: !Hit(h, b[j].addr, a)
    ensures k < |b| ==> Hit(h, b[k].addr, a)
  {
    if b == [] then 0 else if Hit(h, b[0].addr, a) then 0 else 1 + Find(h, b[1..], a)
  }

  // ------------------------------------------------------------ operations on a bucket

  /** `__nat25_db_network_insert`; `room` is whether `rtw_malloc` succeeds. */
  function Inserted(h: Helper, b: Bucket, a: Addr, mac: seq<byte>, now: nat, room: bool): Bucket {
    var k := Find(h, b, a);
    if k < |b| then b[k := b[k].(mac := mac, stamp := now)]
    else if room then [Rec(a, mac, now, 1)] + b
    else b
  }

  /** What a lookup does: whether it reports a hit, and the destination it writes if any. */
  datatype Answer = Answer(hit: bool, mac: Option<seq<byte>>)

  /** Which stamps count as expired at the moment of an operation. */
  type Stale = nat -> bool

  function Lookup(h: Helper, stale: Stale, b: Bucket, a: Addr): Answer {
    var k := Find(h, b, a);
    if k == |b| then Answer(false, None)
    else if stale(b[k].stamp) then Answer(true, None)
    else Answer(true, Some(b[k].mac))
  }

  function Bumped(b: Bucket, k: nat): Bucket
    requires k < |b|
  {
    b[k := b[k].(uses := b[k].uses + 1)]
  }

  function LookedUp(h: Helper, stale: Stale, b: Bucket, a: Addr): Bucket {
    var k := Find(h, b, a);
    if k < |b| && !stale(b[k].stamp) then Bumped(b, k) else b
  }

  /** A refresh through the short cut entry, which stands for record `which` of its bucket; that matters
      only where an address is there twice. */
  function Touched(b: Bucket, a: Addr, which: nat, now: nat): Bucket {
    var k := if which < |b| && b[which].addr == a then which else Find(LikeMemcmp, b, a);
    if k < |b| then b[k := b[k].(stamp := now)] else b
  }

  function Decayed(b: Bucket, k: nat): Bucket
    requires k < |b| && b[k].uses >= 1
  {
    b[k := b[k].(uses := b[k].uses - 1)]
  }

  function Dropped(b: Bucket, k: nat): Bucket
    requires k < |b|
  {
    b[..k] + b[k + 1..]
  }

  /** What a pass of `nat25_db_expire` leaves of one record. */
  function SweptRec(stale: Stale, r: Rec): Bucket {
    if !stale(r.stamp) then [r] else if r.uses <= 1 then [] else [r.(uses := r.uses - 1)]
  }

  /** One pass of `nat25_db_expire` over a bucket. */
  function Swept(stale: Stale, b: Bucket): Bucket {
    if b == [] then [] else SweptRec(stale, b[0]) + Swept(stale, b[1..])
  }

  // ------------------------------------------------------------ the whole database

  type Db = d: seq<Bucket> | |d| == HASH_SIZE witness seq(HASH_SIZE, _ => [])

  ghost predicate Distinct(b: Bucket) {
    forall i, j | 0 <= i < j < |b| :: b[i].addr != b[j].addr
  }

  /** Records sit in the bucket of their address, no address twice, and every record is in use. */
  ghost predicate Consistent(d: Db) {
    && (forall h | 0 <= h < HASH_SIZE :: Distinct(d[h]))
    && (forall h, k | 0 <= h < HASH_SIZE && 0 <= k < |d[h]| ::
          Hash(d[h][k].addr) == h && d[h][k].uses >= 1)
  }

  function Lookee(b: Bucket, a: Addr): Option<Rec> {
    var k := Find(LikeMemcmp, b, a);
    if k < |b| then Some(b[k]) else None
  }

  /** The finite map the database stands for. */
  function Get(d: Db, a: Addr): Option<Rec> { Lookee(d[Hash(a)], a) }

  function StaleAt(c: Clock, now: nat): Stale
    requires ValidClock(c)
  {
    (stamp: nat) => Expired(c, stamp, now)
  }

  datatype Event =
    | Insert(addr: Addr, mac: seq<byte>, room: bool)
    | Query(addr: Addr)
    | Touch(addr: Addr, which: nat)  // traffic of the station the short cut entry stands for
    | Expiry

  /** An event of a run, with the time it happens. */
  datatype Timed = Timed(event: Event, at: nat)

  function Step(h: Helper, c: Clock, d: Db, t: Timed): Db
    requires ValidClock(c)
  {
    match t.event
    case Insert(a, mac, room) => d[Hash(a) := Inserted(h, d[Hash(a)], a, mac, t.at, room)]
    case Query(a) => d[Hash(a) := LookedUp(h, StaleAt(c, t.at), d[Hash(a)], a)]
    case Touch(a, which) => d[Hash(a) := Touched(d[Hash(a)], a, which, t.at)]
    case Expiry => seq(HASH_SIZE, i requires 0 <= i < HASH_SIZE => Swept(StaleAt(c, t.at), d[i]))
  }

  /** No bucket but `i` differs. */
  ghost predicate SameBut(d: Db, e: Db, i: nat) {
    forall j | 0 <= j < HASH_SIZE && j != i :: d[j] == e[j]
  }

  function Run(h: Helper, c: Clock, d: Db, ts: seq<Timed>): Db
    requires ValidClock(c)
    decreases |ts|
  {
    if ts == [] then d else Run(h, c, Step(h, c, d, ts[0]), ts[1..])
  }

  lemma {:induction false} RunOneMore(h: Helper, c: Clock, d: Db, ts: seq<Timed>, t: Timed)
    requires ValidClock(c)
    ensures Run(h, c, d, ts + [t]) == Step(h, c, Run(h, c, d, ts), t)
    decreases |ts|
  {
    hide Step;
    if ts == [] {
      assert ([] + [t])[1..] == [] && Run(h, c, Step(h, c, d, t), []) == Step(h, c, d, t);
    } else {
      HeadOfConcat(ts, [t]);
      RunOneMore(h, c, Step(h, c, d, ts[0]), ts[1..], t);
    }
  }

  /** What an event does to one key of the map. */
  function StepKey(c: Clock, r: Option<Rec>, a: Addr, t: Timed): Option<Rec>
    requires ValidClock(c)
  {
    match t.event
    case Insert(x, mac, room) =>
      if x != a then r
      else if r.Some? then Some(r.value.(mac := mac, stamp := t.at))
      else if room then Some(Rec(a, mac, t.at, 1))
      else None
    case Query(x) =>
      if x == a && r.Some? && !Expired(c, r.value.stamp, t.at) then
        Some(r.value.(uses := r.value.uses + 1))
      else r
    case Touch(x, _) => if x == a && r.Some? then Some(r.value.(stamp := t.at)) else r
    case Expiry =>
      if r.None? || !Expired(c, r.value.stamp, t.at) then r
      else if r.value.uses <= 1 then None
      else Some(r.value.(uses := r.value.uses - 1))
  }

  lemma FindIs(b: Bucket, a: Addr, k: nat)
    requires k <= |b| && (forall j | 0 <= j < k :: b[j].addr != a) && (k < |b| ==> b[k].addr == a)
    ensures Find(LikeMemcmp, b, a) == k
  {
  }

  lemma UpdateKeepsFind(b: Bucket, k: nat, r: Rec, a: Addr)
    requires k < |b| && r.addr == b[k].addr
    ensures Find(LikeMemcmp, b[k := r], a) == Find(LikeMemcmp, b, a)
    ensures Distinct(b) ==> Distinct(b[k := r])
  {
    FindIs(b[k := r], a, Find(LikeMemcmp, b, a));
  }

  lemma PrependFind(r: Rec, b: Bucket, a: Addr)
    ensures Find(LikeMemcmp, [r] + b, a) == if r.addr == a then 0 else 1 + Find(LikeMemcmp, b, a)
  {
    assert ([r] + b)[1..] == b;
  }

  /** A record of a swept bucket was a record of the bucket. */
  predicate Was(b: Bucket, r: Rec) {
    exists q | q in b :: q.addr == r.addr && (q.uses >= 1 ==> r.uses >= 1)
  }

  lemma {:induction false} SweptIsFilter(stale: Stale, b: Bucket)
    ensures forall r | r in Swept(stale, b) :: Was(b, r)
  {
    if b != [] {
      SweptIsFilter(stale, b[1..]);
      forall r | r in Swept(stale, b)
        ensures Was(b, r)
      {
        if r in SweptRec(stale, b[0]) {
          assert b[0] in b;
        } else {
          assert Was(b[1..], r);
          var q :| q in b[1..] && q.addr == r.addr && (q.uses >= 1 ==> r.uses >= 1);
          assert q in b;
        }
      }
    }
  }

  lemma {:induction false} SweptDistinct(stale: Stale, b: Bucket)
    requires Distinct(b)
    ensures Distinct(Swept(stale, b))
  {
    if b != [] {
      SweptDistinct(stale, b[1..]);
      SweptIsFilter(stale, b[1..]);
      var rest := Swept(stale, b[1..]);
      forall i | 0 <= i < |rest|
        ensures rest[i].addr != b[0].addr
      {
        assert Was(b[1..], rest[i]);
      }
    }
  }

  lemma AbsentStaysAbsent(stale: Stale, b: Bucket, a: Addr)
    requires forall r | r in b :: r.addr != a
    ensures Find(LikeMemcmp, Swept(stale, b), a) == |Swept(stale, b)|
    ensures Lookee(Swept(stale, b), a) == None
  {
    SweptIsFilter(stale, b);
    var s := Swept(stale, b);
    forall j | 0 <= j < |s| ensures s[j].addr != a {
      assert Was(b, s[j]);
    }
    FindIs(s, a, |s|);
  }

  lemma PrependLookee(r: Rec, b: Bucket, a: Addr)
    ensures Lookee([r] + b, a) == if r.addr == a then Some(r) else Lookee(b, a)
  {
    PrependFind(r, b, a);
  }

  /** What a pass does to the record of one key. */
  function SweptOption(stale: Stale, r: Option<Rec>): Option<Rec> {
    if r.None? || !stale(r.value.stamp) then r
    else if r.value.uses <= 1 then None
    else Some(r.value.(uses := r.value.uses - 1))
  }

  lemma {:induction false} SweptKey(stale: Stale, b: Bucket, a: Addr)
    requires Distinct(b)
    ensures Lookee(Swept(stale, b), a) == SweptOption(stale, Lookee(b, a))
  {
    if b != [] {
      hide Lookee;
      var head, rest := SweptRec(stale, b[0]), Swept(stale, b[1..]);
      if head != [] {
        PrependLookee(head[0], rest, a);
        assert head == [head[0]];
      } else {
        assert head + rest == rest;
      }
      PrependLookee(b[0], b[1..], a);
      assert [b[0]] + b[1..] == b;
      if b[0].addr == a {
        AbsentStaysAbsent(stale, b[1..], a);
      } else {
        SweptKey(stale, b[1..], a);
      }
    }
  }

  /** A pass over two parts of a bucket. */
  lemma {:induction false} SweptConcat(stale: Stale, x: Bucket, y: Bucket)
    ensures Swept(stale, x + y) == Swept(stale, x) + Swept(stale, y)
  {
    if x == [] {
      assert x + y == y;
    } else {
      HeadOfConcat(x, y);
      SweptConcat(stale, x[1..], y);
      Assoc(SweptRec(stale, x[0]), Swept(stale, x[1..]), Swept(stale, y));
    }
  }

  /** A bucket with the pass done up to record `p`. */
  function HalfSwept(stale: Stale, b: Bucket, p: nat): Bucket
    requires p <= |b|
  {
    Swept(stale, b[..p]) + b[p..]
  }

  /** The pass moves over one record: keep it, count it down or drop it. */
  lemma SweepStep(stale: Stale, b: Bucket, p: nat)
    requires p < |b| && b[p].uses >= 1
    ensures var k, cur := |Swept(stale, b[..p])|, HalfSwept(stale, b, p);
            && k < |cur| && cur[k] == b[p]
            && HalfSwept(stale, b, p + 1) ==
                 (if !stale(b[p].stamp) then cur else if b[p].uses == 1 then Dropped(cur, k) else Decayed(cur, k))
            && |Swept(stale, b[..p + 1])| == (if stale(b[p].stamp) && b[p].uses == 1 then k else k + 1)
  {
    var pre, rest := Swept(stale, b[..p]), b[p + 1..];
    Take(b, p);
    SweptConcat(stale, b[..p], [b[p]]);
    SweptOne(stale, b[p]);
    AtJoint(pre, b[p], rest);
  }

  /** The three things a pass does to a record, where the done and the undone part meet. */
  lemma AtJoint(pre: Bucket, r: Rec, rest: Bucket)
    requires r.uses >= 1
    ensures var k, cur := |pre|, pre + ([r] + rest);
            && k < |cur| && cur[k] == r
            && cur == pre + [r] + rest
            && Dropped(cur, k) == pre + [] + rest
            && Decayed(cur, k) == pre + [r.(uses := r.uses - 1)] + rest
  {
    Assoc(pre, [r], rest);
    Parts(pre, [r], rest);
    assert pre + [] == pre;
    var q := r.(uses := r.uses - 1);
    UpdateMiddle(pre, [r], rest, 0, q);
    assert [r][0 := q] == [q];
  }

  lemma SweptOne(stale: Stale, r: Rec)
    ensures Swept(stale, [r]) == SweptRec(stale, r)
  {
    assert [r][1..] == [];
    assert Swept(stale, []) == [];
  }

  /** A bucket whose records are in place, distinct and in use. */
  ghost predicate Sound(b: Bucket, h: nat) {
    Distinct(b) && forall k | 0 <= k < |b| :: Hash(b[k].addr) == h && b[k].uses >= 1
  }

  lemma InsertedSound(b: Bucket, a: Addr, mac: seq<byte>, now: nat, room: bool)
    requires Sound(b, Hash(a))
    ensures Sound(Inserted(LikeMemcmp, b, a, mac, now, room), Hash(a))
  {
    hide Hash;
    var k := Find(LikeMemcmp, b, a);
    if k < |b| {
      UpdateKeepsFind(b, k, b[k].(mac := mac, stamp := now), a);
    }
  }

  lemma InsertedKey(b: Bucket, a: Addr, mac: seq<byte>, now: nat, room: bool, x: Addr)
    requires Distinct(b)
    ensures forall c: Clock | ValidClock(c) ::
              Lookee(Inserted(LikeMemcmp, b, a, mac, now, room), x) ==
              StepKey(c, Lookee(b, x), x, Timed(Insert(a, mac, room), now))
  {
    var k := Find(LikeMemcmp, b, a);
    if k < |b| {
      UpdateKeepsFind(b, k, b[k].(mac := mac, stamp := now), x);
      if x == a {
        FindIs(b, x, k);
      } else if Find(LikeMemcmp, b, x) == k {
        assert false;
      }
    } else if room {
      PrependFind(Rec(a, mac, now, 1), b, x);
    }
  }

  lemma LookedUpSound(stale: Stale, b: Bucket, a: Addr, x: Addr)
    requires Sound(b, Hash(a))
    ensures Sound(LookedUp(LikeMemcmp, stale, b, a), Hash(a))
    ensures var r := Lookee(b, x);
            Lookee(LookedUp(LikeMemcmp, stale, b, a), x) ==
            if x == a && r.Some? && !stale(r.value.stamp) then Some(r.value.(uses := r.value.uses + 1)) else r
  {
    hide Hash;
    var k := Find(LikeMemcmp, b, a);
    if k < |b| && !stale(b[k].stamp) {
      UpdateKeepsFind(b, k, b[k].(uses := b[k].uses + 1), x);
    }
  }

  lemma TouchedSound(b: Bucket, a: Addr, which: nat, now: nat)
    requires Sound(b, Hash(a))
    ensures Sound(Touched(b, a, which, now), Hash(a))
  {
    hide Hash;
    OneOfAKind(b, a, which);
    var k := Find(LikeMemcmp, b, a);
    if k < |b| {
      UpdateKeepsFind(b, k, b[k].(stamp := now), a);
    }
  }

  lemma OneOfAKind(b: Bucket, a: Addr, k: nat)
    requires Distinct(b)
    ensures k < |b| && b[k].addr == a ==> Find(LikeMemcmp, b, a) == k
  {
    if k < |b| && b[k].addr == a {
      FindIs(b, a, k);
    }
  }

  lemma TouchedKey(b: Bucket, a: Addr, which: nat, now: nat, x: Addr)
    requires Distinct(b)
    ensures var r := Lookee(b, x);
            Lookee(Touched(b, a, which, now), x) == if x == a && r.Some? then Some(r.value.(stamp := now)) else r
  {
    OneOfAKind(b, a, which);
    var k := Find(LikeMemcmp, b, a);
    if k < |b| {
      UpdateKeepsFind(b, k, b[k].(stamp := now), x);
    }
  }

  lemma SweptSound(stale: Stale, b: Bucket, h: nat)
    requires Sound(b, h)
    ensures Sound(Swept(stale, b), h)
  {
    SweptIsFilter(stale, b);
    SweptDistinct(stale, b);
    var s := Swept(stale, b);
    forall k | 0 <= k < |s| ensures Hash(s[k].addr) == h && s[k].uses >= 1 {
      assert Was(b, s[k]);
      var q :| q in b && q.addr == s[k].addr && (q.uses >= 1 ==> s[k].uses >= 1);
    }
  }

  lemma StepIsConsistent(c: Clock, d: Db, t: Timed)
    requires ValidClock(c) && Consistent(d)
    ensures Consistent(Step(LikeMemcmp, c, d, t))
  {
    hide Hash, Inserted, LookedUp, Touched, Swept;
    var e := Step(LikeMemcmp, c, d, t);
    forall h | 0 <= h < HASH_SIZE ensures Sound(e[h], h) {
      assert Sound(d[h], h);
      match t.event
      case Insert(x, mac, room) => InsertedSound(d[Hash(x)], x, mac, t.at, room);
      case Query(x) => LookedUpSound(StaleAt(c, t.at), d[Hash(x)], x, x);
      case Touch(x, which) => TouchedSound(d[Hash(x)], x, which, t.at);
      case Expiry => SweptSound(StaleAt(c, t.at), d[h], h);
    }
  }

  /** With the comparison the bridge code expects, every operation keeps the database consistent
      and acts on the finite map key by key. */
  lemma StepRefinesMap(c: Clock, d: Db, t: Timed, a: Addr)
    requires ValidClock(c) && Consistent(d)
    ensures Consistent(Step(LikeMemcmp, c, d, t))
    ensures Get(Step(LikeMemcmp, c, d, t), a) == StepKey(c, Get(d, a), a, t)
  {
    hide Hash, Inserted, LookedUp, Touched, Swept, Lookee;
    StepIsConsistent(c, d, t);
    assert Sound(d[Hash(a)], Hash(a));
    match t.event
    case Insert(x, mac, room) => InsertedKey(d[Hash(x)], x, mac, t.at, room, a);
    case Query(x) => LookedUpSound(StaleAt(c, t.at), d[Hash(x)], x, a);
    case Touch(x, which) => TouchedKey(d[Hash(x)], x, which, t.at, a);
    case Expiry => SweptKey(StaleAt(c, t.at), d[Hash(a)], a);
  }

  // ------------------------------------------------------------ whole runs

  function RunKey(c: Clock, r: Option<Rec>, a: Addr, ts: seq<Timed>): Option<Rec>
    requires ValidClock(c)
    decreases |ts|
  {
    if ts == [] then r else RunKey(c, StepKey(c, r, a, ts[0]), a, ts[1..])
  }

  lemma {:induction false} RunRefinesMap(c: Clock, d: Db, ts: seq<Timed>, a: Addr)
    requires ValidClock(c) && Consistent(d)
    ensures Consistent(Run(LikeMemcmp, c, d, ts))
    ensures Get(Run(LikeMemcmp, c, d, ts), a) == RunKey(c, Get(d, a), a, ts)
    decreases |ts|
  {
    if ts != [] {
      StepRefinesMap(c, d, ts[0], a);
      RunRefinesMap(c, Step(LikeMemcmp, c, d, ts[0]), ts[1..], a);
    }
  }

  function Age(c: Clock): nat { AGEING_SECONDS * c.hz }

  predicate Refreshes(e: Event, a: Addr) { (e.Insert? || e.Touch?) && e.addr == a }

  /** No event of the run inserts or refreshes the key, and all happen in this span of time. */
  ghost predicate Quiet(ts: seq<Timed>, a: Addr, from: nat, to: nat) {
    forall i | 0 <= i < |ts| ::
      from <= ts[i].at < to && !Refreshes(ts[i].event, a)
  }

  /** How many lookups of the key a run makes. */
  function Queries(ts: seq<Timed>, a: Addr): nat {
    if ts == [] then 0 else (if ts[0].event == Query(a) then 1 else 0) + Queries(ts[1..], a)
  }

  /** While a record is fresh no event frees it or changes where it points, and it gains one use at every
      lookup of its key. */
  lemma {:induction false} FreshSurvives(c: Clock, r: Rec, a: Addr, ts: seq<Timed>)
    requires ValidClock(c) && Quiet(ts, a, r.stamp, r.stamp + Age(c))
    ensures RunKey(c, Some(r), a, ts) == Some(r.(uses := r.uses + Queries(ts, a)))
    decreases |ts|
  {
    if ts != [] {
      ExpiredMeansAged(c, r.stamp, ts[0].at);
      var q := StepKey(c, Some(r), a, ts[0]).value;
      FreshSurvives(c, q, a, ts[1..]);
    }
  }

  function Passes(ts: seq<Timed>): nat {
    if ts == [] then 0 else (if ts[0].event.Expiry? then 1 else 0) + Passes(ts[1..])
  }

  /** An aged record nobody refreshes loses one use at every expiry pass, whatever else happens,
      and is removed at exactly the pass that takes the last one. */
  lemma {:induction false} AgedIsRemovedOnTime(c: Clock, r: Rec, a: Addr, ts: seq<Timed>)
    requires ValidClock(c) && r.uses >= 1
    requires Quiet(ts, a, r.stamp + Age(c), r.stamp + Age(c) + c.period / 2)
    ensures RunKey(c, Some(r), a, ts) ==
            if Passes(ts) < r.uses then Some(r.(uses := r.uses - Passes(ts))) else None
    decreases |ts|
  {
    if ts != [] {
      ExpiredMeansAged(c, r.stamp, ts[0].at);
      if ts[0].event.Expiry? && r.uses == 1 {
        AbsentKeyStaysAbsent(c, a, ts[1..], r.stamp + Age(c), r.stamp + Age(c) + c.period / 2);
      } else if ts[0].event.Expiry? {
        AgedIsRemovedOnTime(c, r.(uses := r.uses - 1), a, ts[1..]);
      } else {
        AgedIsRemovedOnTime(c, r, a, ts[1..]);
      }
    }
  }

  lemma {:induction false} AbsentKeyStaysAbsent(c: Clock, a: Addr, ts: seq<Timed>, from: nat, to: nat)
    requires ValidClock(c) && Quiet(ts, a, from, to)
    ensures RunKey(c, None, a, ts) == None
    decreases |ts|
  {
    if ts != [] {
      AbsentKeyStaysAbsent(c, a, ts[1..], from, to);
    }
  }

  /** Reply routing: whatever came before, once a key is inserted every lookup of it within the
      ageing time answers with the inserted MAC, through any other traffic and expiry passes. */
  lemma ReplyRouting(c: Clock, d: Db, a: Addr, mac: seq<byte>, t0: nat, ts: seq<Timed>, now: nat)
    requires ValidClock(c) && Consistent(d)
    requires Quiet(ts, a, t0, t0 + Age(c)) && t0 <= now < t0 + Age(c)
    ensures var e := Run(LikeMemcmp, c, Step(LikeMemcmp, c, d, Timed(Insert(a, mac, true), t0)), ts);
            Lookup(LikeMemcmp, StaleAt(c, now), e[Hash(a)], a) == Answer(true, Some(mac))
  {
    var ins := Timed(Insert(a, mac, true), t0);
    StepRefinesMap(c, d, ins, a);
    var d' := Step(LikeMemcmp, c, d, ins);
    var r := Get(d', a).value;
    RunRefinesMap(c, d', ts, a);
    FreshSurvives(c, r, a, ts);
    ExpiredMeansAged(c, t0, now);
  }

  /** The same for a station heard again through the short cut: the ageing time starts anew, and the
      MAC is the one on record. */
  lemma TouchRenews(c: Clock, d: Db, a: Addr, which: nat, t0: nat, ts: seq<Timed>, now: nat)
    requires ValidClock(c) && Consistent(d) && Get(d, a).Some?
    requires Quiet(ts, a, t0, t0 + Age(c)) && t0 <= now < t0 + Age(c)
    ensures var e := Run(LikeMemcmp, c, Step(LikeMemcmp, c, d, Timed(Touch(a, which), t0)), ts);
            Lookup(LikeMemcmp, StaleAt(c, now), e[Hash(a)], a) == Answer(true, Some(Get(d, a).value.mac))
  {
    var touch := Timed(Touch(a, which), t0);
    StepRefinesMap(c, d, touch, a);
    var d' := Step(LikeMemcmp, c, d, touch);
    RunRefinesMap(c, d', ts, a);
    FreshSurvives(c, Get(d', a).value, a, ts);
    ExpiredMeansAged(c, t0, now);
  }

  lemma {:induction false} RunKeyConcat(c: Clock, r: Option<Rec>, a: Addr, xs: seq<Timed>, ys: seq<Timed>)
    requires ValidClock(c)
    ensures RunKey(c, r, a, xs + ys) == RunKey(c, RunKey(c, r, a, xs), a, ys)
    decreases |xs|
  {
    if xs == [] {
      assert xs + ys == ys;
    } else {
      HeadOfConcat(xs, ys);
      RunKeyConcat(c, StepKey(c, r, a, xs[0]), a, xs[1..], ys);
    }
  }

  /** The life of a key, from an insert where it was absent on: looked up some times while fresh, then left
      to age, it is there for as many expiry passes as it was looked up, and gone at the next one. */
  lemma LifeOfAKey(c: Clock, d: Db, a: Addr, mac: seq<byte>, t0: nat, young: seq<Timed>, late: seq<Timed>)
    requires ValidClock(c) && Consistent(d) && Get(d, a) == None
    requires Quiet(young, a, t0, t0 + Age(c)) && Quiet(late, a, t0 + Age(c), t0 + Age(c) + c.period / 2)
    ensures var e := Run(LikeMemcmp, c, d, [Timed(Insert(a, mac, true), t0)] + young + late);
            && (Get(e, a).Some? <==> Passes(late) <= Queries(young, a))
            && (Get(e, a).Some? ==> Get(e, a).value.mac == mac)
  {
    hide StepKey, Get, Run;
    var ins := Timed(Insert(a, mac, true), t0);
    RunRefinesMap(c, d, [ins] + young + late, a);
    RunKeyConcat(c, None, a, [ins] + young, late);
    RunKeyConcat(c, None, a, [ins], young);
    FirstInsert(c, a, mac, t0);
    var r := Rec(a, mac, t0, 1);
    FreshSurvives(c, r, a, young);
    AgedIsRemovedOnTime(c, r.(uses := r.uses + Queries(young, a)), a, late);
  }

  lemma FirstInsert(c: Clock, a: Addr, mac: seq<byte>, t0: nat)
    requires ValidClock(c)
    ensures RunKey(c, None, a, [Timed(Insert(a, mac, true), t0)]) == Some(Rec(a, mac, t0, 1))
  {
    var ts := [Timed(Insert(a, mac, true), t0)];
    assert ts[1..] == [];
  }

  /** What a lookup answers, on the map and on the clock: a hit exactly if the key has a record, and a MAC,
      the one on record, exactly if that record is also younger than the ageing time (or so old that the
      counter makes it look young again). */
  lemma AnswerIs(c: Clock, d: Db, a: Addr, now: nat)
    requires ValidClock(c)
    requires Get(d, a).Some? ==> Get(d, a).value.stamp <= now < Get(d, a).value.stamp + c.period
    ensures var r, own := Lookup(LikeMemcmp, StaleAt(c, now), d[Hash(a)], a), Get(d, a);
            && (r.hit <==> exists k | 0 <= k < |d[Hash(a)]| :: d[Hash(a)][k].addr == a)
            && (r.hit <==> own.Some?)
            && (r.mac.Some? <==> own.Some? && !(Age(c) <= now - own.value.stamp < Age(c) + c.period / 2))
            && (r.mac.Some? ==> r.mac == Some(own.value.mac))
  {
    hide Expired;
    var b := d[Hash(a)];
    var k := Find(LikeMemcmp, b, a);
    if k < |b| {
      assert b[k].addr == a;
      ExpiredMeansAged(c, b[k].stamp, now);
    }
  }

  // ------------------------------------------------------------ the helper as it ships

  /** What the shipped lookup answers: a hit exactly if the bucket holds some other key, and then what the
      first such record says, if that is young enough. */
  lemma ShippedAnswerIs(c: Clock, b: Bucket, a: Addr, now: nat, k: nat)
    requires ValidClock(c) && k <= |b| && (forall j | 0 <= j < k :: b[j].addr == a)
    requires k < |b| ==> b[k].addr != a && b[k].stamp <= now < b[k].stamp + c.period
    ensures var r := Lookup(TrueOnEqual, StaleAt(c, now), b, a);
            && (r.hit <==> exists i | 0 <= i < |b| :: b[i].addr != a)
            && (r.hit <==> k < |b|)
            && (r.mac.Some? <==> k < |b| && !(Age(c) <= now - b[k].stamp < Age(c) + c.period / 2))
            && (r.mac.Some? ==> r.mac == Some(b[k].mac))
  {
    hide Expired;
    ShippedFindIs(b, a, k);
    if k < |b| {
      ExpiredMeansAged(c, b[k].stamp, now);
    }
  }

  /** The two conventions report a hit alike exactly when the bucket is empty or holds both the
      key and some other key. */
  lemma HitsAgreeIff(b: Bucket, a: Addr)
    ensures (Find(LikeMemcmp, b, a) < |b| <==> Find(TrueOnEqual, b, a) < |b|) <==>
            b == [] || ((exists i | 0 <= i < |b| :: b[i].addr == a) &&
                        (exists i | 0 <= i < |b| :: b[i].addr != a))
  {
    var m, s := Find(LikeMemcmp, b, a), Find(TrueOnEqual, b, a);
    if m < |b| {
      assert b[m].addr == a;
    }
    if s < |b| {
      assert b[s].addr != a;
    }
  }

  /** The record already says what is being inserted. */
  predicate Says(r: Rec, mac: seq<byte>, now: nat) { r.mac == mac && r.stamp == now }

  /** The two conventions insert alike exactly into an empty bucket, or where neither changes
      anything because both records they would change already say what is being inserted. */
  lemma InsertsAgreeIff(b: Bucket, a: Addr, mac: seq<byte>, now: nat)
    ensures var m, s := Find(LikeMemcmp, b, a), Find(TrueOnEqual, b, a);
            Inserted(LikeMemcmp, b, a, mac, now, true) == Inserted(TrueOnEqual, b, a, mac, now, true)
            <==> b == [] || (m < |b| && s < |b| && Says(b[m], mac, now) && Says(b[s], mac, now))
  {
    var m, s := Find(LikeMemcmp, b, a), Find(TrueOnEqual, b, a);
    var x, y := Inserted(LikeMemcmp, b, a, mac, now, true), Inserted(TrueOnEqual, b, a, mac, now, true);
    if b != [] {
      if m < |b| && s < |b| {
        assert m != s;
        assert x[m] == b[m].(mac := mac, stamp := now) && y[m] == b[m];
        assert x[s] == b[s] && y[s] == b[s].(mac := mac, stamp := now);
        if Says(b[m], mac, now) && Says(b[s], mac, now) {
          assert x == b && y == b;
        }
      } else {
        assert |x| != |y|;
      }
    }
  }

  /** Two shipped inserts of one key into an empty bucket leave it there twice, with both MACs. */
  lemma ShippedHelperDuplicates(a: Addr, x: seq<byte>, t: nat, y: seq<byte>, u: nat)
    ensures var twice := Inserted(TrueOnEqual, Inserted(TrueOnEqual, [], a, x, t, true), a, y, u, true);
            twice == [Rec(a, y, u, 1), Rec(a, x, t, 1)] && !Distinct(twice)
  {
    var once := [Rec(a, x, t, 1)];
    assert Inserted(TrueOnEqual, [], a, x, t, true) == once;
    ShippedFindIs(once, a, 1);
    var twice := [Rec(a, y, u, 1)] + once;
    assert twice[0].addr == twice[1].addr;
  }

  /** The shipped insert keeps addresses distinct exactly if the bucket does not hold the key and
      nothing else. */
  lemma ShippedKeepsDistinctIff(b: Bucket, a: Addr, mac: seq<byte>, now: nat)
    requires Distinct(b)
    ensures Distinct(Inserted(TrueOnEqual, b, a, mac, now, true)) <==> !(|b| == 1 && b[0].addr == a)
  {
    var k := Find(TrueOnEqual, b, a);
    var after := Inserted(TrueOnEqual, b, a, mac, now, true);
    if k < |b| {
      UpdateKeepsFind(b, k, b[k].(mac := mac, stamp := now), a);
    } else if |b| == 1 {
      assert after[0].addr == after[1].addr;
    } else {
      OnlyOwn(b, a);
    }
  }

  /** Right after a shipped insert the shipped lookup answers with the inserted MAC exactly if the
      bucket holds another key: then both go to the record of that other key. */
  lemma ShippedRoutesIff(stale: Stale, b: Bucket, a: Addr, mac: seq<byte>, now: nat)
    requires !stale(now)
    ensures Lookup(TrueOnEqual, stale, Inserted(TrueOnEqual, b, a, mac, now, true), a) == Answer(true, Some(mac))
            <==> exists i | 0 <= i < |b| :: b[i].addr != a
  {
    var k := Find(TrueOnEqual, b, a);
    var after := Inserted(TrueOnEqual, b, a, mac, now, true);
    if k < |b| {
      ShippedFindIs(after, a, k);
      assert b[k].addr != a;
    } else {
      assert forall i | 0 <= i < |after| :: after[i].addr == a;
      ShippedFindIs(after, a, |after|);
    }
  }

  lemma {:induction false} ShippedFindIs(b: Bucket, a: Addr, k: nat)
    requires k <= |b| && (forall j | 0 <= j < k :: b[j].addr == a) && (k < |b| ==> b[k].addr != a)
    ensures Find(TrueOnEqual, b, a) == k
  {
  }

  /** The first key of an empty database is never answered, however fresh. */
  lemma ShippedRoutingFails(stale: Stale, a: Addr, mac: seq<byte>, now: nat)
    ensures Lookup(TrueOnEqual, stale, Inserted(TrueOnEqual, [], a, mac, now, true), a) == Answer(false, None)
  {
    ShippedFindIs([Rec(a, mac, now, 1)], a, 1);
    assert [Rec(a, mac, now, 1)] + [] == [Rec(a, mac, now, 1)];
  }

  // ------------------------------------------------------------ when the shipped table is a map

  /** When a shipped insert leaves every key as it should be. */
  predicate InsertAgrees(b: Bucket, a: Addr, mac: seq<byte>, now: nat, room: bool) {
    var k, own := Find(TrueOnEqual, b, a), Lookee(b, a);
    if k < |b| then
      Says(b[k], mac, now) && if own.Some? then Says(own.value, mac, now) else !room
    else if own.None? then true
    else if room then own.value.uses == 1
    else Says(own.value, mac, now)
  }

  /** When a shipped lookup does: it counts a use of no other key, and misses none of its own. */
  predicate LookupAgrees(stale: Stale, b: Bucket, a: Addr) {
    var k, own := Find(TrueOnEqual, b, a), Lookee(b, a);
    !(k < |b| && !stale(b[k].stamp)) && !(own.Some? && !stale(own.value.stamp))
  }

  /** The condition on the database and the event under which the shipped code acts on the map. */
  predicate Agrees(c: Clock, d: Db, t: Timed)
    requires ValidClock(c)
  {
    match t.event
    case Insert(a, mac, room) => InsertAgrees(d[Hash(a)], a, mac, t.at, room)
    case Query(a) => LookupAgrees(StaleAt(c, t.at), d[Hash(a)], a)
    case Touch(_, _) => true
    case Expiry => true
  }

  /** In a bucket without repetitions every record is found under its address. */
  lemma OwnRecord(b: Bucket, k: nat)
    requires Distinct(b) && k < |b|
    ensures Lookee(b, b[k].addr) == Some(b[k])
  {
    FindIs(b, b[k].addr, k);
  }

  /** What a shipped insert does to a key. */
  lemma ShippedInsertKey(b: Bucket, a: Addr, mac: seq<byte>, now: nat, room: bool, x: Addr)
    requires Distinct(b)
    ensures var k := Find(TrueOnEqual, b, a);
            Lookee(Inserted(TrueOnEqual, b, a, mac, now, room), x) ==
            if k < |b| then (if x == b[k].addr then Some(b[k].(mac := mac, stamp := now)) else Lookee(b, x))
            else if room && x == a then Some(Rec(a, mac, now, 1))
            else Lookee(b, x)
  {
    var k := Find(TrueOnEqual, b, a);
    if k < |b| {
      UpdateKeepsFind(b, k, b[k].(mac := mac, stamp := now), x);
      if x == b[k].addr {
        OwnRecord(b, k);
      }
    } else if room {
      PrependLookee(Rec(a, mac, now, 1), b, x);
    }
  }

  /** The insert an event should make, on one key. */
  function InsertKey(r: Option<Rec>, a: Addr, mac: seq<byte>, now: nat, room: bool): Option<Rec> {
    if r.Some? then Some(r.value.(mac := mac, stamp := now))
    else if room then Some(Rec(a, mac, now, 1))
    else None
  }

  ghost predicate InsertsLikeMap(b: Bucket, a: Addr, mac: seq<byte>, now: nat, room: bool) {
    forall x: Addr :: Lookee(Inserted(TrueOnEqual, b, a, mac, now, room), x) ==
                      if x == a then InsertKey(Lookee(b, a), a, mac, now, room) else Lookee(b, x)
  }

  lemma ShippedInsertAgreesIff(b: Bucket, a: Addr, mac: seq<byte>, now: nat, room: bool)
    requires Distinct(b)
    ensures InsertsLikeMap(b, a, mac, now, room) <==> InsertAgrees(b, a, mac, now, room)
  {
    hide Inserted, Lookee;
    var k := Find(TrueOnEqual, b, a);
    ShippedInsertKey(b, a, mac, now, room, a);
    if k < |b| {
      ShippedInsertKey(b, a, mac, now, room, b[k].addr);
      OwnRecord(b, k);
    } else {
      OnlyOwn(b, a);
    }
    if InsertAgrees(b, a, mac, now, room) {
      forall x: Addr
        ensures Lookee(Inserted(TrueOnEqual, b, a, mac, now, room), x) ==
                if x == a then InsertKey(Lookee(b, a), a, mac, now, room) else Lookee(b, x)
      {
        ShippedInsertKey(b, a, mac, now, room, x);
      }
    }
  }

  lemma OnlyOwn(b: Bucket, a: Addr)
    requires Distinct(b) && Find(TrueOnEqual, b, a) == |b|
    ensures b == [] || (|b| == 1 && b[0].addr == a)
    ensures Lookee(b, a).Some? ==> Lookee(b, a).value.addr == a
  {
    if |b| > 1 {
      HasOther(b, a);
    }
  }

  lemma HasOther(b: Bucket, a: Addr)
    requires Distinct(b) && |b| > 1
    ensures Find(TrueOnEqual, b, a) < |b|
  {
    assert b[0].addr != b[1].addr;
  }

  ghost predicate LooksUpLikeMap(stale: Stale, b: Bucket, a: Addr) {
    forall x: Addr :: Lookee(LookedUp(TrueOnEqual, stale, b, a), x) ==
                      var r := Lookee(b, x);
                      if x == a && r.Some? && !stale(r.value.stamp) then Some(r.value.(uses := r.value.uses + 1)) else r
  }

  lemma ShippedLookupAgreesIff(stale: Stale, b: Bucket, a: Addr)
    requires Distinct(b)
    ensures LooksUpLikeMap(stale, b, a) <==> LookupAgrees(stale, b, a)
  {
    var k := Find(TrueOnEqual, b, a);
    var after := LookedUp(TrueOnEqual, stale, b, a);
    if k < |b| && !stale(b[k].stamp) {
      UpdateKeepsFind(b, k, b[k].(uses := b[k].uses + 1), b[k].addr);
      OwnRecord(b, k);
      assert Lookee(after, b[k].addr) == Some(b[k].(uses := b[k].uses + 1));
      assert !LooksUpLikeMap(stale, b, a);
    } else {
      assert after == b;
      if LooksUpLikeMap(stale, b, a) {
        assert Lookee(after, a) == Lookee(b, a);
      }
    }
  }

  ghost predicate StepsLikeMap(c: Clock, d: Db, t: Timed)
    requires ValidClock(c)
  {
    forall x: Addr :: Get(Step(TrueOnEqual, c, d, t), x) == StepKey(c, Get(d, x), x, t)
  }

  /** The shipped code does to every key what the map demands exactly under that condition. */
  lemma ShippedStepAgreesIff(c: Clock, d: Db, t: Timed)
    requires ValidClock(c) && Consistent(d)
    ensures StepsLikeMap(c, d, t) <==> Agrees(c, d, t)
  {
    match t.event
    case Insert(a, mac, room) => InsertOnDb(c, d, t);
    case Query(a) => LookupOnDb(c, d, t);
    case Touch(_, _) => SameForBoth(c, d, t);
    case Expiry => SameForBoth(c, d, t);
  }

  lemma SameForBoth(c: Clock, d: Db, t: Timed)
    requires ValidClock(c) && Consistent(d) && (t.event.Touch? || t.event.Expiry?)
    ensures StepsLikeMap(c, d, t)
  {
    assert Step(TrueOnEqual, c, d, t) == Step(LikeMemcmp, c, d, t);
    forall x: Addr
      ensures Get(Step(TrueOnEqual, c, d, t), x) == StepKey(c, Get(d, x), x, t)
    {
      StepRefinesMap(c, d, t, x);
    }
  }

  /** A key of another bucket is not touched. */
  lemma InsertOnDb(c: Clock, d: Db, t: Timed)
    requires ValidClock(c) && Consistent(d) && t.event.Insert?
    ensures StepsLikeMap(c, d, t) <==> Agrees(c, d, t)
  {
    hide Hash, Inserted, Lookee, InsertAgrees;
    var a, mac, room := t.event.addr, t.event.mac, t.event.room;
    var b := d[Hash(a)];
    ShippedInsertAgreesIff(b, a, mac, t.at, room);
    forall x: Addr
      ensures Get(Step(TrueOnEqual, c, d, t), x) == StepKey(c, Get(d, x), x, t) <==>
              Lookee(Inserted(TrueOnEqual, b, a, mac, t.at, room), x) ==
              if x == a then InsertKey(Lookee(b, a), a, mac, t.at, room) else Lookee(b, x)
    {
      if Hash(x) != Hash(a) {
        Stranger(b, a, mac, t.at, room, x);
      }
    }
  }

  /** A key that hashes elsewhere is in the bucket neither before nor after. */
  lemma Stranger(b: Bucket, a: Addr, mac: seq<byte>, now: nat, room: bool, x: Addr)
    requires Sound(b, Hash(a)) && Hash(x) != Hash(a)
    ensures Lookee(b, x) == None
    ensures Lookee(Inserted(TrueOnEqual, b, a, mac, now, room), x) == None
  {
    ShippedInsertKey(b, a, mac, now, room, x);
  }

  lemma LookupOnDb(c: Clock, d: Db, t: Timed)
    requires ValidClock(c) && Consistent(d) && t.event.Query?
    ensures StepsLikeMap(c, d, t) <==> Agrees(c, d, t)
  {
    hide Hash, LookedUp, Lookee, LookupAgrees, Expired;
    var a, stale := t.event.addr, StaleAt(c, t.at);
    var b := d[Hash(a)];
    ShippedLookupAgreesIff(stale, b, a);
    forall x: Addr
      ensures Get(Step(TrueOnEqual, c, d, t), x) == StepKey(c, Get(d, x), x, t) <==>
              Lookee(LookedUp(TrueOnEqual, stale, b, a), x) ==
              var r := Lookee(b, x);
              if x == a && r.Some? && !stale(r.value.stamp) then Some(r.value.(uses := r.value.uses + 1)) else r
    {
      if Hash(x) != Hash(a) {
        StrangerLooksUp(stale, b, a, x);
      }
    }
  }

  lemma StrangerLooksUp(stale: Stale, b: Bucket, a: Addr, x: Addr)
    requires Sound(b, Hash(a)) && Hash(x) != Hash(a)
    ensures Lookee(b, x) == None && Lookee(LookedUp(TrueOnEqual, stale, b, a), x) == None
  {
    var k := Find(TrueOnEqual, b, a);
    if k < |b| {
      UpdateKeepsFind(b, k, b[k].(uses := b[k].uses + 1), x);
    }
  }

  /** The insert that puts a key beside itself. */
  predicate Duplicates(d: Db, t: Timed) {
    t.event.Insert? && t.event.room &&
    var b := d[Hash(t.event.addr)];
    |b| == 1 && b[0].addr == t.event.addr
  }

  lemma ShippedStepKeepsConsistentIff(c: Clock, d: Db, t: Timed)
    requires ValidClock(c) && Consistent(d)
    ensures Consistent(Step(TrueOnEqual, c, d, t)) <==> !Duplicates(d, t)
  {
    var e := Step(TrueOnEqual, c, d, t);
    match t.event
    case Insert(a, mac, room) =>
      assert forall h | 0 <= h < HASH_SIZE && h != Hash(a) :: e[h] == d[h];
      ShippedInsertSoundIff(d[Hash(a)], a, mac, t.at, room);
      assert Consistent(e) <==> Sound(e[Hash(a)], Hash(a));
    case Query(a) =>
      assert forall h | 0 <= h < HASH_SIZE && h != Hash(a) :: e[h] == d[h];
      var k := Find(TrueOnEqual, d[Hash(a)], a);
      if k < |d[Hash(a)]| {
        UpdateKeepsFind(d[Hash(a)], k, d[Hash(a)][k].(uses := d[Hash(a)][k].uses + 1), a);
      }
      assert Sound(e[Hash(a)], Hash(a));
    case Touch(x, _) => StepRefinesMap(c, d, t, x);
    case Expiry =>
      var x: Addr := seq(ADDR_LEN, _ => 0);
      StepRefinesMap(c, d, t, x);
  }

  lemma ShippedInsertSoundIff(b: Bucket, a: Addr, mac: seq<byte>, now: nat, room: bool)
    requires Sound(b, Hash(a))
    ensures Sound(Inserted(TrueOnEqual, b, a, mac, now, room), Hash(a))
            <==> !(room && |b| == 1 && b[0].addr == a)
  {
    hide Hash;
    if room {
      ShippedKeepsDistinctIff(b, a, mac, now);
    } else {
      var k := Find(TrueOnEqual, b, a);
      if k < |b| {
        UpdateKeepsFind(b, k, b[k].(mac := mac, stamp := now), a);
      }
    }
  }

  /** After every event of a run the shipped table is consistent and is the map it should be. */
  ghost predicate RefinesThroughout(c: Clock, d: Db, ts: seq<Timed>)
    requires ValidClock(c)
    decreases |ts|
  {
    ts == [] ||
    var e := Step(TrueOnEqual, c, d, ts[0]);
    && Consistent(e)
    && StepsLikeMap(c, d, ts[0])
    && RefinesThroughout(c, e, ts[1..])
  }

  /** ... which comes down to what each event meets. */
  ghost predicate AgreesThroughout(c: Clock, d: Db, ts: seq<Timed>)
    requires ValidClock(c)
    decreases |ts|
  {
    ts == [] ||
    (Agrees(c, d, ts[0]) && !Duplicates(d, ts[0]) && AgreesThroughout(c, Step(TrueOnEqual, c, d, ts[0]), ts[1..]))
  }

  /** Over every run the shipped code refines the map exactly if no event of it meets a bucket in
      which the inverted comparison matters. */
  lemma {:induction false} ShippedRunRefinesIff(c: Clock, d: Db, ts: seq<Timed>)
    requires ValidClock(c) && Consistent(d)
    ensures RefinesThroughout(c, d, ts) <==> AgreesThroughout(c, d, ts)
    ensures RefinesThroughout(c, d, ts) ==>
              forall x: Addr :: Get(Run(TrueOnEqual, c, d, ts), x) == RunKey(c, Get(d, x), x, ts)
    decreases |ts|
  {
    hide Step, Get, StepKey, Agrees, Duplicates, Consistent;
    if ts != [] {
      ShippedStepAgreesIff(c, d, ts[0]);
      ShippedStepKeepsConsistentIff(c, d, ts[0]);
      if !Duplicates(d, ts[0]) {
        ShippedRunRefinesIff(c, Step(TrueOnEqual, c, d, ts[0]), ts[1..]);
      }
    }
  }
}
