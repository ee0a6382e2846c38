/** The NAT2.5 database as the driver stores it: an array of chain heads, entries linked by
    `next_hash`, each with a pointer back to the word that points at it. */
module Nat25 {
  import opened Bytes
  import opened Options
  import opened Nat25Records
  import opened Seqs

  /** The word `pprev_hash` points at. */
  datatype Slot = Nowhere | HeadOf(bucket: nat) | NextOf(entry: Entry)

  class Entry {
    var next: Entry?
    var pprev: Slot
    var uses: nat
    var mac: seq<byte>
    var stamp: nat
    const addr: Addr
    ghost const home: nat := Hash(addr)  // the bucket the entry is made for

    constructor (addr: Addr, mac: seq<byte>, stamp: nat)
      ensures this.addr == addr && this.mac == mac && this.stamp == stamp && uses == 1
    {
      this.addr, this.mac, this.stamp := addr, mac, stamp;
      uses, next, pprev := 1, null, Nowhere;
    }
  }

  ghost function Set(c: seq<Entry>): set<Entry> { set e | e in c }

  /** The entries of a chain are different objects, all made for bucket `i`. */
  ghost predicate Apart(i: nat, c: seq<Entry>) {
    && (forall k | 0 <= k < |c| :: c[k].home == i)
    && (forall k, l | 0 <= k < l < |c| :: c[k] != c[l])
  }

  function At(c: seq<Entry>, k: nat): Entry? { if k < |c| then c[k] else null }

  ghost function Before(i: nat, c: seq<Entry>, k: nat): Slot
    requires k < |c|
  {
    if k == 0 then HeadOf(i) else NextOf(c[k - 1])
  }

  /** Forward links run from `head` through `c` to null; back links point at the word in front. */
  ghost predicate Linked(i: nat, head: Entry?, c: seq<Entry>)
    reads Set(c)`next, Set(c)`pprev
  {
    && head == At(c, 0)
    && (forall k | 0 <= k < |c| :: c[k].next == At(c, k + 1) && c[k].pprev == Before(i, c, k))
  }

  /** The entries store these records, and each is in use. */
  ghost predicate Stores(c: seq<Entry>, rs: Bucket)
    reads Set(c)`mac, Set(c)`stamp, Set(c)`uses
  {
    && |c| == |rs|
    && (forall k | 0 <= k < |c| ::
          rs[k] == Rec(c[k].addr, c[k].mac, c[k].stamp, c[k].uses) && c[k].uses >= 1)
  }

  lemma SetsDisjoint(i: nat, c: seq<Entry>, j: nat, d: seq<Entry>)
    requires Apart(i, c) && Apart(j, d) && i != j
    ensures Set(c) !! Set(d)
  {
    assert forall e | e in Set(c) :: e.home == i;
    assert forall e | e in Set(d) :: e.home == j;
  }

  /** `__network_hash_link` on its own chain. */
  method LinkChain(buckets: array<Entry?>, ent: Entry, hash: nat, ghost c: seq<Entry>)
    requires hash < buckets.Length && Apart(hash, c) && Linked(hash, buckets[hash], c)
    requires ent !in c && ent.home == hash
    modifies buckets, ent`next, ent`pprev, Set(c)`pprev
    ensures forall j | 0 <= j < buckets.Length :: buckets[j] == if j == hash then ent else old(buckets[j])
    ensures Apart(hash, [ent] + c) && Linked(hash, ent, [ent] + c)
  {
    ent.next := buckets[hash];
    if ent.next != null {
      assert ent.next == c[0] && c[0] in Set(c);
      ent.next.pprev := NextOf(ent);
    }
    buckets[hash] := ent;
    ent.pprev := HeadOf(hash);
    ghost var d := [ent] + c;
    forall k | 0 <= k < |d| ensures d[k].next == At(d, k + 1) && d[k].pprev == Before(hash, d, k) {
      assert k > 0 ==> d[k] == c[k - 1] && d[k] in Set(c);
    }
  }

  function Cut(c: seq<Entry>, k: nat): seq<Entry>
    requires k < |c|
  {
    c[..k] + c[k + 1..]
  }

  /** The neighbours in a chain with entry `k` taken out. */
  lemma CutNeighbours(i: nat, c: seq<Entry>, k: nat, m: nat)
    requires k < |c| && m < |c| && m != k
    ensures var l := if m < k then m else m - 1;
            && l < |Cut(c, k)| && Cut(c, k)[l] == c[m]
            && At(Cut(c, k), l + 1) == (if m + 1 == k then At(c, k + 1) else At(c, m + 1))
            && Before(i, Cut(c, k), l) == (if m == k + 1 then Before(i, c, k) else Before(i, c, m))
  {
  }

  /** `*(ent->pprev_hash) = ent->next_hash`. */
  method StoreThrough(buckets: array<Entry?>, ent: Entry, ghost i: nat, ghost k: nat, ghost c: seq<Entry>)
    requires i < buckets.Length && Apart(i, c) && Linked(i, buckets[i], c)
    requires k < |c| && c[k] == ent
    modifies buckets, Set(c)`next
    ensures forall j | 0 <= j < buckets.Length && j != i :: buckets[j] == old(buckets[j])
    ensures buckets[i] == if k == 0 then At(c, 1) else old(buckets[i])
    ensures forall m | 0 <= m < |c| :: c[m].next == if m + 1 == k then At(c, k + 1) else At(c, m + 1)
  {
    match ent.pprev {
      case HeadOf(b) => buckets[b] := ent.next;
      case NextOf(p) =>
        assert p == c[k - 1] && p in Set(c);
        p.next := ent.next;
    }
  }

  /** `ent->next_hash->pprev_hash = ent->pprev_hash`, then both links of `ent` are cleared. */
  method FixBack(ent: Entry, ghost i: nat, ghost k: nat, ghost c: seq<Entry>)
    requires Apart(i, c) && k < |c| && c[k] == ent && ent.next == At(c, k + 1)
    requires forall m | 0 <= m < |c| :: c[m].pprev == Before(i, c, m)
    modifies Set(c)`pprev, ent`next
    ensures forall m | 0 <= m < |c| && m != k ::
              c[m].pprev == if m == k + 1 then Before(i, c, k) else Before(i, c, m)
    ensures ent.next == null && ent.pprev == Nowhere
  {
    assert ent in Set(c);
    if ent.next != null {
      assert ent.next == c[k + 1] && c[k + 1] in Set(c);
      ent.next.pprev := ent.pprev;
    }
    ent.next := null;
    ent.pprev := Nowhere;
  }

  /** `__network_hash_unlink` on its own chain. */
  method UnlinkChain(buckets: array<Entry?>, ent: Entry, ghost i: nat, ghost k: nat, ghost c: seq<Entry>)
    requires i < buckets.Length && Apart(i, c) && Linked(i, buckets[i], c)
    requires k < |c| && c[k] == ent
    modifies buckets, Set(c)`next, Set(c)`pprev
    ensures forall j | 0 <= j < buckets.Length && j != i :: buckets[j] == old(buckets[j])
    ensures Linked(i, buckets[i], Cut(c, k))
    ensures ent.next == null && ent.pprev == Nowhere
  {
    assert ent in Set(c);
    StoreThrough(buckets, ent, i, k, c);
    FixBack(ent, i, k, c);
    CutLinked(buckets[i], i, k, c);
  }

  lemma CutLinked(head: Entry?, i: nat, k: nat, c: seq<Entry>)
    requires k < |c| && head == (if k == 0 then At(c, 1) else At(c, 0))
    requires forall m | 0 <= m < |c| && m != k ::
               && c[m].next == (if m + 1 == k then At(c, k + 1) else At(c, m + 1))
               && c[m].pprev == (if m == k + 1 then Before(i, c, k) else Before(i, c, m))
    ensures Linked(i, head, Cut(c, k))
  {
    var d := Cut(c, k);
    forall l | 0 <= l < |d| ensures d[l].next == At(d, l + 1) && d[l].pprev == Before(i, d, l) {
      CutNeighbours(i, c, k, if l < k then l else l + 1);
    }
  }

  lemma CutApart(i: nat, c: seq<Entry>, k: nat)
    requires Apart(i, c) && k < |c|
    ensures Apart(i, Cut(c, k)) && Set(Cut(c, k)) == Set(c) - {c[k]}
  {
    var d := Cut(c, k);
    forall e | e in Set(c) - {c[k]} ensures e in Set(d) {
      var m :| 0 <= m < |c| && c[m] == e;
      assert d[if m < k then m else m - 1] == e;
    }
    assert forall l | 0 <= l < |d| :: d[l] == c[if l < k then l else l + 1];
  }

  lemma CutStores(c: seq<Entry>, rs: Bucket, k: nat)
    requires Stores(c, rs) && k < |c|
    ensures Stores(Cut(c, k), Dropped(rs, k))
  {
  }

  /** Writes the fields of entry `k` of a chain. */
  method PutFields(e: Entry, ghost i: nat, ghost k: nat, ghost c: seq<Entry>, ghost rs: Bucket,
                   mac: seq<byte>, stamp: nat, uses: nat)
    requires Apart(i, c) && Stores(c, rs) && k < |c| && c[k] == e && uses >= 1
    modifies e`mac, e`stamp, e`uses
    ensures Stores(c, rs[k := Rec(e.addr, mac, stamp, uses)])
  {
    e.mac, e.stamp, e.uses := mac, stamp, uses;
    assert forall m | 0 <= m < |c| && m != k :: c[m] != e;
  }

  /** Bucket `i` with head `head` holds the entries `c`, which store `rs`. */
  ghost predicate ChainOk(i: nat, head: Entry?, c: seq<Entry>, rs: Bucket)
    reads Set(c)
  {
    Apart(i, c) && Linked(i, head, c) && Stores(c, rs)
  }

  class Table {
    const buckets: array<Entry?>
    var scdb: Entry?
    ghost var chains: seq<seq<Entry>>
    ghost var recs: Db
    ghost var nodes: set<Entry>

    ghost predicate ScdbOk()
      reads this
    {
      scdb != null ==> scdb.home < |chains| && scdb in chains[scdb.home]
    }

    ghost predicate Chained()
      reads this`chains, this`recs, this`nodes, buckets, nodes
    {
      && buckets.Length == HASH_SIZE && |chains| == HASH_SIZE
      && (forall i | 0 <= i < HASH_SIZE :: Set(chains[i]) <= nodes)
      && (forall i | 0 <= i < HASH_SIZE :: ChainOk(i, buckets[i], chains[i], recs[i]))
    }

    ghost predicate Valid()
      reads this, buckets, nodes
    {
      Chained() && ScdbOk()
    }

    constructor ()
      ensures Valid() && recs == seq(HASH_SIZE, _ => []) && nodes == {} && scdb == null && fresh(buckets)
    {
      buckets := new Entry?[HASH_SIZE](_ => null);
      scdb := null;
      chains := seq(HASH_SIZE, _ => []);
      recs := seq(HASH_SIZE, _ => []);
      nodes := {};
    }

    /** Every chain but `i` is as recorded. */
    ghost predicate Others(i: nat)
      reads this`chains, this`recs, this`nodes, buckets, nodes
    {
      && buckets.Length == HASH_SIZE && |chains| == HASH_SIZE && i < HASH_SIZE
      && (forall j | 0 <= j < HASH_SIZE && j != i ::
            Set(chains[j]) <= nodes && ChainOk(j, buckets[j], chains[j], recs[j]))
    }

    /** Records the new shape of chain `i` once its entries are linked and all others untouched. */
    ghost method Install(i: nat, c: seq<Entry>, rs: Bucket, e: Entry)
      requires Others(i) && ChainOk(i, buckets[i], c, rs)
      requires Set(c) <= nodes + {e}
      requires scdb != null ==>
                 scdb.home < HASH_SIZE && scdb in (if scdb.home == i then c else chains[scdb.home])
      modifies this`chains, this`recs, this`nodes
      ensures Valid()
      ensures chains == old(chains)[i := c] && recs == old(recs)[i := rs] && nodes == old(nodes) + {e}
    {
      nodes := nodes + {e};
      chains, recs := chains[i := c], recs[i := rs];
    }

    method LinkOne(ent: Entry, hash: nat)
      requires Chained() && ent !in nodes && ent.home == hash < HASH_SIZE
      modifies buckets, ent`next, ent`pprev, nodes`pprev
      ensures Others(hash)
      ensures Apart(hash, [ent] + chains[hash]) && Linked(hash, buckets[hash], [ent] + chains[hash])
    {
      hide Hash;
      ghost var c := chains[hash];
      assert ChainOk(hash, buckets[hash], c, recs[hash]);
      assert ent !in Set(c);
      LinkChain(buckets, ent, hash, c);
      forall i | 0 <= i < HASH_SIZE && i != hash ensures ChainOk(i, buckets[i], chains[i], recs[i]) {
        assert old(ChainOk(i, buckets[i], chains[i], recs[i]));
        SetsDisjoint(i, chains[i], hash, [ent] + c);
      }
    }

    /** `__network_hash_link`. */
    method Link(ent: Entry, hash: nat)
      requires Valid() && ent !in nodes && ent.home == hash < HASH_SIZE && ent.uses >= 1
      modifies this`chains, this`recs, this`nodes, buckets, ent`next, ent`pprev, nodes`pprev
      ensures Valid() && nodes == old(nodes) + {ent}
      ensures chains == old(chains)[hash := [ent] + old(chains)[hash]]
      ensures recs == old(recs)[hash := [Rec(ent.addr, ent.mac, ent.stamp, ent.uses)] + old(recs)[hash]]
    {
      assert Stores(chains[hash], recs[hash]) by {
        assert ChainOk(hash, buckets[hash], chains[hash], recs[hash]);
      }
      LinkOne(ent, hash);
      ghost var d, rs := [ent] + chains[hash], [Rec(ent.addr, ent.mac, ent.stamp, ent.uses)] + recs[hash];
      assert Stores(d, rs);
      assert Set(d) == Set(chains[hash]) + {ent};
      Install(hash, d, rs, ent);
    }

    method UnlinkOne(ent: Entry, ghost i: nat, ghost k: nat)
      requires Chained() && i < HASH_SIZE && k < |chains[i]| && chains[i][k] == ent
      modifies buckets, nodes`next, nodes`pprev
      ensures Others(i)
      ensures k < |recs[i]| && ChainOk(i, buckets[i], Cut(chains[i], k), Dropped(recs[i], k))
      ensures Set(Cut(chains[i], k)) == Set(chains[i]) - {ent} && Set(chains[i]) <= nodes
    {
      hide Hash;
      ghost var c := chains[i];
      assert ChainOk(i, buckets[i], c, recs[i]);
      CutApart(i, c, k);
      UnlinkChain(buckets, ent, i, k, c);
      CutStores(c, recs[i], k);
      forall j | 0 <= j < HASH_SIZE && j != i ensures ChainOk(j, buckets[j], chains[j], recs[j]) {
        assert old(ChainOk(j, buckets[j], chains[j], recs[j]));
        SetsDisjoint(j, chains[j], i, c);
      }
    }

    /** `__network_hash_unlink` and freeing, once `scdb_entry` no longer names the entry. */
    method Unlink(ent: Entry, ghost i: nat, ghost k: nat)
      requires Valid() && i < HASH_SIZE && k < |chains[i]| && chains[i][k] == ent && scdb != ent
      modifies this`chains, this`recs, this`nodes, buckets, nodes`next, nodes`pprev
      ensures Valid() && nodes == old(nodes)
      ensures chains == old(chains)[i := Cut(old(chains)[i], k)]
      ensures k < |old(recs)[i]| && recs == old(recs)[i := Dropped(old(recs)[i], k)]
    {
      hide ChainOk, Dropped;
      assert scdb != null && scdb.home == i ==> scdb in Set(chains[i]);
      UnlinkOne(ent, i, k);
      assert scdb != null && scdb.home == i ==> scdb in Set(Cut(chains[i], k));
      assert ent in Set(chains[i]);
      Install(i, Cut(chains[i], k), Dropped(recs[i], k), ent);
      assert old(nodes) + {ent} == old(nodes);
    }

    /** The search loop every operation starts with. */
    method Search(h: Helper, a: Addr) returns (db: Entry?, ghost k: nat)
      requires Valid()
      ensures k == Find(h, recs[Hash(a)], a) && |recs[Hash(a)]| == |chains[Hash(a)]|
      ensures db == At(chains[Hash(a)], k)
    {
      ghost var c, b := chains[Hash(a)], recs[Hash(a)];
      assert ChainOk(Hash(a), buckets[Hash(a)], c, b);
      db, k := buckets[Hash(a)], 0;
      while db != null
        invariant k <= |c| && db == At(c, k)
        invariant forall j | 0 <= j < k :: !Hit(h, b[j].addr, a)
        decreases |c| - k
      {
        if Hit(h, db.addr, a) {
          break;
        }
        db, k := db.next, k + 1;
      }
      FoundAt(h, b, a, k);
    }

    method PutOne(e: Entry, ghost i: nat, ghost k: nat, mac: seq<byte>, stamp: nat, uses: nat)
      requires Chained() && i < HASH_SIZE && k < |chains[i]| && chains[i][k] == e && uses >= 1
      modifies e`mac, e`stamp, e`uses
      ensures Others(i) && Set(chains[i]) <= nodes && e in nodes
      ensures k < |recs[i]| && ChainOk(i, buckets[i], chains[i], recs[i][k := Rec(e.addr, mac, stamp, uses)])
    {
      hide Hash;
      ghost var c := chains[i];
      assert ChainOk(i, buckets[i], c, recs[i]);
      assert e in Set(c);
      PutFields(e, i, k, c, recs[i], mac, stamp, uses);
      forall j | 0 <= j < HASH_SIZE && j != i ensures ChainOk(j, buckets[j], chains[j], recs[j]) {
        assert old(ChainOk(j, buckets[j], chains[j], recs[j]));
        SetsDisjoint(j, chains[j], i, c);
      }
    }

    /** Writes the fields of a linked entry. */
    method Put(e: Entry, ghost i: nat, ghost k: nat, mac: seq<byte>, stamp: nat, uses: nat)
      requires Valid() && i < HASH_SIZE && k < |chains[i]| && chains[i][k] == e && uses >= 1
      modifies e`mac, e`stamp, e`uses, this`recs, this`chains, this`nodes
      ensures Valid() && chains == old(chains) && nodes == old(nodes)
      ensures k < |old(recs)[i]| && recs == old(recs)[i := old(recs)[i][k := Rec(e.addr, mac, stamp, uses)]]
    {
      PutOne(e, i, k, mac, stamp, uses);
      Install(i, chains[i], recs[i][k := Rec(e.addr, mac, stamp, uses)], e);
      assert old(nodes) + {e} == old(nodes);
    }

    /** `__nat25_db_network_insert`. */
    method Insert(h: Helper, mac: seq<byte>, a: Addr, now: nat, room: bool)
      requires Valid()
      modifies this`chains, this`recs, this`nodes, buckets, nodes
      ensures Valid() && scdb == old(scdb) && fresh(nodes - old(nodes))
      ensures recs == old(recs)[Hash(a) := Inserted(h, old(recs)[Hash(a)], a, mac, now, room)]
    {
      hide Hash;
      var db, k := Search(h, a);
      if db != null {
        StoredAt(Hash(a), k);
        Put(db, Hash(a), k, mac, now, db.uses);
        return;
      }
      if !room {
        return;
      }
      db := new Entry(a, mac, now);
      Link(db, Hash(a));
    }

    lemma StoredAt(i: nat, k: nat)
      requires Valid() && i < HASH_SIZE && k < |chains[i]|
      ensures |recs[i]| == |chains[i]|
      ensures var e := chains[i][k]; e in nodes && recs[i][k] == Rec(e.addr, e.mac, e.stamp, e.uses) && e.uses >= 1
    {
      assert ChainOk(i, buckets[i], chains[i], recs[i]);
      assert chains[i][k] in Set(chains[i]);
    }

    /** The reading half of a lookup: `db` is the entry to count a use for, if it is fresh. */
    method Probe(h: Helper, stale: Stale, a: Addr) returns (r: Answer, db: Entry?, ghost k: nat)
      requires Valid()
      ensures k == Find(h, recs[Hash(a)], a) && |recs[Hash(a)]| == |chains[Hash(a)]|
      ensures r == Lookup(h, stale, recs[Hash(a)], a)
      ensures db == if r.mac.Some? then At(chains[Hash(a)], k) else null
      ensures db == null ==> LookedUp(h, stale, recs[Hash(a)], a) == recs[Hash(a)]
      ensures db != null ==> k < |recs[Hash(a)]| && !stale(recs[Hash(a)][k].stamp)
    {
      db, k := Search(h, a);
      if db == null {
        r := Answer(false, None);
      } else {
        StoredAt(Hash(a), k);
        if stale(db.stamp) {
          r, db := Answer(true, None), null;
        } else {
          r := Answer(true, Some(db.mac));
        }
      }
    }

    /** `atomic_inc(&db->use_count)`. */
    method Bump(e: Entry, ghost i: nat, ghost k: nat)
      requires Valid() && i < HASH_SIZE && k < |chains[i]| && chains[i][k] == e
      modifies e`mac, e`stamp, e`uses, this`recs, this`chains, this`nodes
      ensures Valid() && nodes == old(nodes)
      ensures k < |old(recs)[i]| && recs == old(recs)[i := Bumped(old(recs)[i], k)]
    {
      hide Hash;
      StoredAt(i, k);
      assert Bumped(recs[i], k) == recs[i][k := Rec(e.addr, e.mac, e.stamp, e.uses + 1)];
      Put(e, i, k, e.mac, e.stamp, e.uses + 1);
    }

    /** `__nat25_db_network_lookup_and_replace`: the answer carries the destination it writes. */
    method LookupAndReplace(h: Helper, stale: Stale, a: Addr) returns (r: Answer)
      requires Valid()
      modifies this`recs, this`chains, this`nodes, nodes
      ensures Valid() && scdb == old(scdb) && nodes == old(nodes)
      ensures r == Lookup(h, stale, old(recs)[Hash(a)], a)
      ensures h == LikeMemcmp ==>
                && (r.hit <==> Get(old(recs), a).Some?)
                && (r.mac.Some? <==> Get(old(recs), a).Some? && !stale(Get(old(recs), a).value.stamp))
                && (r.mac.Some? ==> r.mac == Some(Get(old(recs), a).value.mac))
      ensures h == TrueOnEqual ==>
                (r.hit <==> exists k | 0 <= k < |old(recs)[Hash(a)]| :: old(recs)[Hash(a)][k].addr != a)
      ensures recs == old(recs)[Hash(a) := LookedUp(h, stale, old(recs)[Hash(a)], a)]
    {
      hide Hash;
      var db;
      ghost var k;
      r, db, k := Probe(h, stale, a);
      ghost var i, b := Hash(a), recs[Hash(a)];
      ghost var want := LookedUp(h, stale, b, a);
      if db != null {
        assert want == Bumped(b, k);
        Bump(db, i, k);
        assert recs == old(recs)[i := want];
      } else {
        assert recs == recs[i := want];
      }
    }

    /** The lookup of an IP frame: `d` is the destination the frame leaves with. Where no station is
        known it is broadcast or the bridge's own address, by the last octet of the IP address. */
    method RouteIp(h: Helper, stale: Stale, ip: seq<byte>, dest: seq<byte>, bridge: seq<byte>) returns (d: seq<byte>)
      requires Valid() && |ip| == 4
      modifies this`recs, this`chains, this`nodes, nodes
      ensures Valid() && scdb == old(scdb) && nodes == old(nodes)
      ensures h == LikeMemcmp ==>
                match Get(old(recs), Ipv4(ip))
                case None => d == if ip[3] == 255 then BROADCAST else bridge
                case Some(r) => d == if stale(r.stamp) then dest else r.mac
    {
      var r := LookupAndReplace(h, stale, Ipv4(ip));
      if !r.hit {
        return if ip[3] == 255 then BROADCAST else bridge;
      }
      d := if r.mac.Some? then r.mac.value else dest;
    }

    /** `atomic_dec(&f->use_count)` of an entry that stays. */
    method Decay(e: Entry, ghost i: nat, ghost k: nat)
      requires Valid() && i < HASH_SIZE && k < |chains[i]| && chains[i][k] == e && e.uses > 1
      modifies e`mac, e`stamp, e`uses, this`recs, this`chains, this`nodes
      ensures Valid() && nodes == old(nodes) && chains == old(chains)
      ensures k < |old(recs)[i]| && old(recs)[i][k].uses >= 1 && recs == old(recs)[i := Decayed(old(recs)[i], k)]
    {
      StoredAt(i, k);
      assert Decayed(recs[i], k) == recs[i][k := Rec(e.addr, e.mac, e.stamp, e.uses - 1)];
      Put(e, i, k, e.mac, e.stamp, e.uses - 1);
    }

    /** Forgets the short cut if it names this entry, then unlinks and frees the entry. */
    method Free(e: Entry, ghost i: nat, ghost k: nat)
      requires Valid() && i < HASH_SIZE && k < |chains[i]| && chains[i][k] == e
      modifies this, buckets, nodes`next, nodes`pprev
      ensures Valid() && nodes == old(nodes) && scdb == (if old(scdb) == e then null else old(scdb))
      ensures chains == old(chains)[i := Cut(old(chains)[i], k)]
      ensures k < |old(recs)[i]| && recs == old(recs)[i := Dropped(old(recs)[i], k)]
    {
      if scdb == e {
        scdb := null;
      }
      Unlink(e, i, k);
    }

    /** The inner loop of `nat25_db_expire`. */
    method ExpireBucket(stale: Stale, i: nat)
      requires Valid() && i < HASH_SIZE
      modifies this, buckets, nodes
      ensures Valid() && nodes == old(nodes)
      ensures SameBut(old(recs), recs, i) && recs[i] == Swept(stale, old(recs)[i])
    {
      hide Hash;
      ghost var b := recs[i];
      ghost var p, k := 0, 0;
      HalfSweptEnds(stale, b);
      assert ChainOk(i, buckets[i], chains[i], recs[i]);
      var f := buckets[i];
      while f != null
        invariant Valid() && nodes == old(nodes)
        invariant p <= |b| && k == |Swept(stale, b[..p])|
        invariant SameBut(old(recs), recs, i) && recs[i] == HalfSwept(stale, b, p)
        invariant |chains[i]| == |recs[i]| && f == At(chains[i], k)
        decreases |b| - p
      {
        var g;
        g, k := ExpireOne(stale, f, i, k, b, p);
        f, p := g, p + 1;
      }
    }

    /** One turn of the inner loop: `g` is the entry to go on with. */
    method ExpireOne(stale: Stale, f: Entry, ghost i: nat, ghost k: nat, ghost b: Bucket, ghost p: nat)
      returns (g: Entry?, ghost k': nat)
      requires Valid() && i < HASH_SIZE && p <= |b| && k == |Swept(stale, b[..p])|
      requires recs[i] == HalfSwept(stale, b, p) && f == At(chains[i], k)
      modifies this, buckets, nodes
      ensures Valid() && nodes == old(nodes) && p < |b|
      ensures k' == |Swept(stale, b[..p + 1])|
      ensures SameBut(old(recs), recs, i) && recs[i] == HalfSwept(stale, b, p + 1)
      ensures |chains[i]| == |recs[i]| && g == At(chains[i], k')
    {
      hide Hash, ChainOk, Swept, HalfSwept, Dropped, Decayed;
      StoredAt(i, k);
      HalfSweptNext(stale, b, p);
      SweepStep(stale, b, p);
      g := NextEntry(f, i, k);
      k' := k + 1;
      if stale(f.stamp) {
        if f.uses == 1 {
          CutNext(chains[i], k);
          k' := k;
          Free(f, i, k);
        } else {
          Decay(f, i, k);
        }
      }
      Lengths(i);
    }

    method NextEntry(f: Entry, ghost i: nat, ghost k: nat) returns (g: Entry?)
      requires Valid() && i < HASH_SIZE && f == At(chains[i], k)
      ensures g == At(chains[i], k + 1)
    {
      assert ChainOk(i, buckets[i], chains[i], recs[i]);
      g := f.next;
    }

    lemma Lengths(i: nat)
      requires Valid() && i < HASH_SIZE
      ensures |chains[i]| == |recs[i]|
    {
      assert ChainOk(i, buckets[i], chains[i], recs[i]);
    }

    /** `nat25_db_expire`. */
    method Expire(clock: Clock, now: nat)
      requires Valid() && ValidClock(clock)
      modifies this, buckets, nodes
      ensures Valid() && nodes == old(nodes)
      ensures forall h: Helper :: recs == Step(h, clock, old(recs), Timed(Expiry, now))
    {
      for i := 0 to HASH_SIZE
        invariant Valid() && nodes == old(nodes)
        invariant forall j | 0 <= j < i :: recs[j] == Swept(StaleAt(clock, now), old(recs)[j])
        invariant forall j | i <= j < HASH_SIZE :: recs[j] == old(recs)[j]
      {
        ExpireBucket(StaleAt(clock, now), i);
      }
    }

    /** The inner loop of `nat25_db_cleanup`. */
    method CleanBucket(i: nat)
      requires Valid() && i < HASH_SIZE
      modifies this, buckets, nodes`next, nodes`pprev
      ensures Valid() && nodes == old(nodes)
      ensures SameBut(old(recs), recs, i) && recs[i] == []
    {
      hide Hash;
      assert ChainOk(i, buckets[i], chains[i], recs[i]);
      var f := buckets[i];
      while f != null
        invariant Valid() && nodes == old(nodes)
        invariant SameBut(old(recs), recs, i) && f == At(chains[i], 0)
        decreases |chains[i]|
      {
        f := FreeFirst(f, i);
      }
      Lengths(i);
    }

    /** One turn of that loop. */
    method FreeFirst(f: Entry, ghost i: nat) returns (g: Entry?)
      requires Valid() && i < HASH_SIZE && f == At(chains[i], 0)
      modifies this, buckets, nodes`next, nodes`pprev
      ensures Valid() && nodes == old(nodes) && SameBut(old(recs), recs, i)
      ensures g == At(chains[i], 0) && |chains[i]| == |old(chains)[i]| - 1
    {
      hide Hash;
      g := NextEntry(f, i, 0);
      CutNext(chains[i], 0);
      Free(f, i, 0);
    }

    /** `nat25_db_cleanup`: nothing is left, not even the short cut. */
    method Cleanup()
      requires Valid()
      modifies this, buckets, nodes`next, nodes`pprev
      ensures Valid() && scdb == null
      ensures forall i | 0 <= i < HASH_SIZE :: recs[i] == []
    {
      for i := 0 to HASH_SIZE
        invariant Valid() && nodes == old(nodes)
        invariant forall j | 0 <= j < i :: recs[j] == []
      {
        CleanBucket(i);
      }
      forall i | 0 <= i < HASH_SIZE
        ensures chains[i] == []
      {
        Lengths(i);
      }
    }

    /** `scdb_findEntry`, and its result kept as the short cut: null or a linked entry. */
    method RememberScdb(h: Helper, ip: seq<byte>)
      requires Valid() && |ip| == 4
      modifies this`scdb
      ensures Valid()
      ensures var k := Find(h, recs[Hash(Ipv4(ip))], Ipv4(ip));
              scdb == At(chains[Hash(Ipv4(ip))], k)
    {
      var db, k := Search(h, Ipv4(ip));
      if db != null {
        assert ChainOk(Hash(Ipv4(ip)), buckets[Hash(Ipv4(ip))], chains[Hash(Ipv4(ip))], recs[Hash(Ipv4(ip))]);
      }
      scdb := db;
    }

    /** Traffic of the short cut station refreshes its entry without a search. */
    method TouchScdb(now: nat, ghost k: nat)
      requires Valid() && scdb != null && At(chains[scdb.home], k) == scdb
      modifies scdb`mac, scdb`stamp, scdb`uses, this`recs, this`chains, this`nodes
      ensures Valid() && scdb == old(scdb) && nodes == old(nodes)
      ensures var i := scdb.home;
              && i < HASH_SIZE && k < |old(recs)[i]| && old(recs)[i][k].addr == scdb.addr
              && recs == old(recs)[i := old(recs)[i][k := old(recs)[i][k].(stamp := now)]]
              && recs == old(recs)[i := Touched(old(recs)[i], scdb.addr, k, now)]
    {
      ghost var i := scdb.home;
      StoredAt(i, k);
      Put(scdb, i, k, scdb.mac, now, scdb.uses);
    }

    /** Any event, with the answer of a lookup. A refresh names the place of the short cut entry. */
    method Handle(h: Helper, clock: Clock, t: Timed) returns (r: Option<Answer>)
      requires Valid() && ValidClock(clock)
      requires t.event.Touch? ==>
                 && scdb != null && scdb.addr == t.event.addr
                 && At(chains[Hash(t.event.addr)], t.event.which) == scdb
      modifies this, buckets, nodes
      ensures Valid() && fresh(nodes - old(nodes))
      ensures recs == Step(h, clock, old(recs), t)
      ensures t.event.Query? ==>
                r == Some(Lookup(h, StaleAt(clock, t.at), old(recs)[Hash(t.event.addr)], t.event.addr))
    {
      hide Hash;
      r := None;
      match t.event
      case Insert(a, mac, room) => Insert(h, mac, a, t.at, room);
      case Query(a) =>
        var answer := LookupAndReplace(h, StaleAt(clock, t.at), a);
        r := Some(answer);
      case Touch(a, k) => Refresh(h, clock, a, t.at, k);
      case Expiry => Expire(clock, t.at);
    }

    /** Traffic of the short cut station, if there is one, as an event of the record level. */
    method Traffic(h: Helper, clock: Clock, now: nat) returns (ghost ts: seq<Timed>)
      requires Valid() && ValidClock(clock)
      modifies this, buckets, nodes
      ensures Valid() && fresh(nodes - old(nodes))
      ensures Core(ts) == [] && |ts| <= 1
      ensures recs == Run(h, clock, old(recs), ts)
    {
      hide Hash, Step;
      ts := [];
      if scdb != null {
        ghost var k :| 0 <= k < |chains[scdb.home]| && chains[scdb.home][k] == scdb;
        ghost var t := Timed(Touch(scdb.addr, k), now);
        RunOneMore(h, clock, recs, [], t);
        assert [] + [t] == [t] && [t][1..] == [];
        ts := [t];
        Refresh(h, clock, scdb.addr, now, k);
      }
    }

    /** The refresh as the event it is. */
    method Refresh(h: Helper, clock: Clock, a: Addr, now: nat, ghost k: nat)
      requires Valid() && ValidClock(clock) && scdb != null && scdb.addr == a
      requires At(chains[scdb.home], k) == scdb
      modifies this, buckets, nodes
      ensures Valid() && fresh(nodes - old(nodes))
      ensures recs == Step(h, clock, old(recs), Timed(Touch(a, k), now))
    {
      hide Hash, Step, Touched, ChainOk;
      TouchIsStep(h, clock, recs, a, k, now);
      TouchScdb(now, k);
    }

    /** One act; the events it stands for at the record level. */
    method Perform(h: Helper, clock: Clock, act: Act) returns (ghost ts: seq<Timed>)
      requires Valid() && ValidClock(clock) && Proper(act)
      modifies this, buckets, nodes
      ensures Valid() && fresh(nodes - old(nodes))
      ensures Core(ts) == if act.Do? then [act.t] else []
      ensures recs == Run(h, clock, old(recs), ts)
    {
      hide Hash, Step, ChainOk;
      ts := [];
      match act
      case Do(t) =>
        RunOneMore(h, clock, recs, [], t);
        assert [] + [t] == [t] && [t][1..] == [];
        ts := [t];
        var _ := Handle(h, clock, t);
      case Remember(ip) => RememberScdb(h, ip);
      case Pass(now) => ts := Traffic(h, clock, now);
    }

    /** Any run of events, short cut settings and short cut traffic: the linked table holds the records
        of a run of these events, with refreshes in between. */
    method RunAll(h: Helper, clock: Clock, acts: seq<Act>) returns (ghost ts: seq<Timed>)
      requires Valid() && ValidClock(clock) && forall i | 0 <= i < |acts| :: Proper(acts[i])
      modifies this, buckets, nodes
      ensures Valid()
      ensures Core(ts) == CoreOf(acts)
      ensures recs == Run(h, clock, old(recs), ts)
    {
      assert Run(h, clock, recs, []) == recs;
      hide Hash, Step, ChainOk, Run;
      ts := [];
      for i := 0 to |acts|
        invariant Valid() && fresh(nodes - old(nodes))
        invariant Core(ts) == CoreOf(acts[..i])
        invariant recs == Run(h, clock, old(recs), ts)
      {
        CoreOneMore(acts[..i], acts[i]);
        assert acts[..i + 1] == acts[..i] + [acts[i]];
        ghost var more := Perform(h, clock, acts[i]);
        RunConcat(h, clock, old(recs), ts, more);
        CoreConcat(ts, more);
        ts := ts + more;
      }
      assert acts[..|acts|] == acts;
    }
  }

  /** What happens to the table: an event, the short cut set for an address, or traffic on it. */
  datatype Act = Do(t: Timed) | Remember(ip: seq<byte>) | Pass(now: nat)

  predicate Proper(a: Act) {
    match a
    case Do(t) => !t.event.Touch?
    case Remember(ip) => |ip| == 4
    case Pass(_) => true
  }

  /** A run of events without its refreshes. */
  function Core(ts: seq<Timed>): seq<Timed> {
    if ts == [] then [] else (if ts[0].event.Touch? then [] else [ts[0]]) + Core(ts[1..])
  }

  function CoreOf(acts: seq<Act>): seq<Timed> {
    if acts == [] then []
    else
      var last := acts[|acts| - 1];
      CoreOf(acts[..|acts| - 1]) + if last.Do? then [last.t] else []
  }

  lemma {:induction false} CoreConcat(x: seq<Timed>, y: seq<Timed>)
    ensures Core(x + y) == Core(x) + Core(y)
  {
    if x == [] {
      assert x + y == y;
    } else {
      HeadOfConcat(x, y);
      CoreConcat(x[1..], y);
      Assoc(if x[0].event.Touch? then [] else [x[0]], Core(x[1..]), Core(y));
    }
  }

  lemma TouchIsStep(h: Helper, c: Clock, d: Db, a: Addr, k: nat, now: nat)
    requires ValidClock(c)
    ensures Step(h, c, d, Timed(Touch(a, k), now)) == d[Hash(a) := Touched(d[Hash(a)], a, k, now)]
  {
  }

  lemma CoreOneMore(acts: seq<Act>, a: Act)
    ensures CoreOf(acts + [a]) == CoreOf(acts) + if a.Do? then [a.t] else []
  {
    assert (acts + [a])[..|acts|] == acts;
  }

  lemma {:induction false} RunConcat(h: Helper, c: Clock, d: Db, x: seq<Timed>, y: seq<Timed>)
    requires ValidClock(c)
    ensures Run(h, c, d, x + y) == Run(h, c, Run(h, c, d, x), y)
    decreases |x|
  {
    hide Step;
    if x == [] {
      assert x + y == y;
    } else {
      HeadOfConcat(x, y);
      RunConcat(h, c, Step(h, c, d, x[0]), x[1..], y);
    }
  }

  lemma CutNext(c: seq<Entry>, k: nat)
    requires k < |c|
    ensures At(Cut(c, k), k) == At(c, k + 1)
  {
  }

  lemma HalfSweptNext(stale: Stale, b: Bucket, p: nat)
    requires p <= |b| && |Swept(stale, b[..p])| < |HalfSwept(stale, b, p)|
    ensures p < |b| && HalfSwept(stale, b, p)[|Swept(stale, b[..p])|] == b[p]
  {
  }

  lemma HalfSweptEnds(stale: Stale, b: Bucket)
    ensures HalfSwept(stale, b, 0) == b && HalfSwept(stale, b, |b|) == Swept(stale, b)
    ensures |Swept(stale, b[..0])| == 0
  {
    assert b[..|b|] == b && b[|b|..] == [] && b[..0] == [];
  }

  lemma FoundAt(h: Helper, b: Bucket, a: Addr, k: nat)
    requires k <= |b| && (forall j | 0 <= j < k :: !Hit(h, b[j].addr, a)) && (k < |b| ==> Hit(h, b[k].addr, a))
    ensures Find(h, b, a) == k
  {
  }
}
