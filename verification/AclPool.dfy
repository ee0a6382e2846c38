/** The MAC address access-control pool: sixteen slots that are also nodes of a list. */
module AclPool {
  import opened Bytes
  import opened Seqs

  type Mac = a: seq<byte> | |a| == 6 witness [0, 0, 0, 0, 0, 0]

  const NUM_ACL: nat := 16
  const BROADCAST: Mac := [255, 255, 255, 255, 255, 255]

  // ------------------------------------------------------------ the bounded set

  ghost predicate Distinct<T(!new)>(s: seq<T>) {
    forall i, j | 0 <= i < j < |s| :: s[i] != s[j]
  }

  datatype Op = Add(addr: Mac) | Remove(addr: Mac) | Clear

  function Except(ms: seq<Mac>, a: Mac): (r: seq<Mac>)
    ensures forall m :: m in r <==> m in ms && m != a
    ensures |r| <= |ms|
  {
    if ms == [] then []
    else (if ms[0] == a then [] else [ms[0]]) + Except(ms[1..], a)
  }

  predicate Refuses(ms: seq<Mac>, a: Mac) { a !in ms && |ms| >= NUM_ACL }

  function Step(ms: seq<Mac>, op: Op): seq<Mac> {
    match op
    case Add(a) => if a in ms || |ms| >= NUM_ACL then ms else ms + [a]
    case Remove(a) => if a == BROADCAST then [] else Except(ms, a)
    case Clear => []
  }

  function Run(ms: seq<Mac>, ops: seq<Op>): seq<Mac> {
    if ops == [] then ms else Step(Run(ms, ops[..|ops| - 1]), ops[|ops| - 1])
  }

  lemma {:induction false} ExceptIsDistinct(ms: seq<Mac>, a: Mac)
    requires Distinct(ms)
    ensures Distinct(Except(ms, a))
  {
    if ms != [] {
      assert forall i, j | 0 <= i < j < |ms[1..]| :: ms[1..][i] == ms[i + 1] && ms[1..][j] == ms[j + 1];
      ExceptIsDistinct(ms[1..], a);
      var r := Except(ms[1..], a);
      forall j | 0 <= j < |r|
        ensures r[j] != ms[0]
      {
        assert r[j] in r;
        var k :| 0 <= k < |ms[1..]| && ms[1..][k] == r[j];
        assert ms[k + 1] == r[j];
      }
    }
  }

  /** Over every run the pool is a set of at most sixteen addresses. */
  lemma {:induction false} RunIsBoundedSet(ops: seq<Op>)
    ensures Distinct(Run([], ops)) && |Run([], ops)| <= NUM_ACL
  {
    if ops != [] {
      var before := Run([], ops[..|ops| - 1]);
      RunIsBoundedSet(ops[..|ops| - 1]);
      match ops[|ops| - 1] {
        case Add(_) =>
        case Remove(a) => ExceptIsDistinct(before, a);
        case Clear =>
      }
    }
  }

  predicate Drops(op: Op, a: Mac) {
    op == Clear || op == Remove(a) || op == Remove(BROADCAST)
  }

  /** Operation `i` adds `a` (or finds it there). */
  predicate Takes(ops: seq<Op>, i: nat, a: Mac)
    requires i < |ops|
  {
    ops[i] == Add(a) && !Refuses(Run([], ops[..i]), a)
  }

  /** ... and nothing later takes it out. */
  ghost predicate Holds(ops: seq<Op>, i: nat, a: Mac)
    requires i < |ops|
  {
    Takes(ops, i, a) && forall j | i < j < |ops| :: !Drops(ops[j], a)
  }

  lemma HoldsBefore(ops: seq<Op>, i: nat, a: Mac)
    requires i < |ops| - 1
    ensures Holds(ops, i, a) <==> Holds(ops[..|ops| - 1], i, a) && !Drops(ops[|ops| - 1], a)
  {
    assert ops[..|ops| - 1][..i] == ops[..i];
  }

  lemma StepMember(ms: seq<Mac>, op: Op, a: Mac)
    ensures a in Step(ms, op) <==> (a in ms && !Drops(op, a)) || (op == Add(a) && !Refuses(ms, a))
  {
  }

  /** An address is in the pool exactly if some accepted addition of it was not followed by its
      removal, a broadcast removal or a clearing. */
  lemma {:induction false} MemberIff(ops: seq<Op>, a: Mac)
    ensures a in Run([], ops) <==> exists i | 0 <= i < |ops| :: Holds(ops, i, a)
  {
    if ops != [] {
      var n := |ops| - 1;
      var prev := ops[..n];
      MemberIff(prev, a);
      forall i | 0 <= i < n
        ensures Holds(ops, i, a) <==> Holds(prev, i, a) && !Drops(ops[n], a)
      {
        HoldsBefore(ops, i, a);
      }
      assert Holds(ops, n, a) <==> Takes(ops, n, a);
      StepMember(Run([], prev), ops[n], a);
    }
  }

  // ------------------------------------------------------------ slots and list

  ghost predicate Linked(queue: seq<nat>, valid: seq<bool>) {
    && (forall k | 0 <= k < |queue| :: queue[k] < |valid| && valid[queue[k]])
    && (forall i | 0 <= i < |valid| && valid[i] :: i in queue)
    && Distinct(queue)
  }

  ghost function Read(queue: seq<nat>, addr: seq<Mac>): (ms: seq<Mac>)
    requires forall k | 0 <= k < |queue| :: queue[k] < |addr|
    ensures |ms| == |queue|
  {
    seq(|queue|, k requires 0 <= k < |queue| => addr[queue[k]])
  }

  ghost function Out(queue: seq<nat>, k: nat): seq<nat>
    requires k < |queue|
  {
    queue[..k] + queue[k + 1..]
  }

  lemma OutIsDistinct(queue: seq<nat>, k: nat)
    requires Distinct(queue) && k < |queue|
    ensures Distinct(Out(queue, k))
    ensures forall x :: x in Out(queue, k) <==> x in queue && x != queue[k]
  {
    var q := Out(queue, k);
    assert forall i | 0 <= i < |q| :: q[i] == if i < k then queue[i] else queue[i + 1];
    forall x | x in queue && x != queue[k]
      ensures x in q
    {
      var i :| 0 <= i < |queue| && queue[i] == x;
      assert q[if i < k then i else i - 1] == x;
    }
  }

  /** Pigeonhole: distinct numbers below `n` are at most `n`... */
  lemma {:induction false} DistinctBelow(queue: seq<nat>, n: nat)
    requires Distinct(queue) && forall k | 0 <= k < |queue| :: queue[k] < n
    ensures |queue| <= n
  {
    if n == 0 {
      assert (queue + [0])[0] == 0;
    } else if k :| 0 <= k < |queue| && queue[k] == n - 1 {
      OutIsDistinct(queue, k);
      assert forall i | 0 <= i < |Out(queue, k)| :: Out(queue, k)[i] in Out(queue, k);
      DistinctBelow(Out(queue, k), n - 1);
    } else {
      DistinctBelow(queue, n - 1);
    }
  }

  /** ... and at least `n` if none is missing. */
  lemma {:induction false} NoneMissing(queue: seq<nat>, n: nat)
    requires Distinct(queue) && forall x: nat | x < n :: x in queue
    ensures |queue| >= n
  {
    if n > 0 {
      assert n - 1 in queue;
      var k :| 0 <= k < |queue| && queue[k] == n - 1;
      OutIsDistinct(queue, k);
      NoneMissing(Out(queue, k), n - 1);
    }
  }

  lemma FullHasAll(queue: seq<nat>, i: nat)
    requires Distinct(queue) && |queue| == NUM_ACL && i < NUM_ACL
    requires forall x | x in queue :: x < NUM_ACL
    ensures i in queue
  {
    if i !in queue {
      assert forall k | 0 <= k < |queue| :: queue[k] in queue;
      DistinctBelow(queue + [i], NUM_ACL);
    }
  }

  class Pool {
    const valid: array<bool>
    const addr: array<Mac>
    var queue: seq<nat>  // slot numbers in list order
    var num: int

    ghost predicate Valid()
      reads this, valid, addr
    {
      && valid.Length == NUM_ACL && addr.Length == NUM_ACL
      && Linked(queue, valid[..])
      && num == |queue|
      && Distinct(Members())
    }

    ghost function Members(): seq<Mac>
      requires addr.Length == NUM_ACL && valid.Length == NUM_ACL && Linked(queue, valid[..])
      reads this, valid, addr
    {
      Read(queue, addr[..])
    }

    constructor ()
      ensures Valid() && Members() == [] && fresh(valid) && fresh(addr)
    {
      valid := new bool[NUM_ACL](_ => false);
      addr := new Mac[NUM_ACL](_ => BROADCAST);
      queue, num := [], 0;
    }

    method Exists(a: Mac) returns (found: bool)
      requires Valid()
      ensures found <==> a in Members()
    {
      var k := 0;
      while k < |queue|
        invariant k <= |queue|
        invariant forall j | 0 <= j < k :: addr[queue[j]] != a
      {
        assert Members()[k] == addr[queue[k]];
        if addr[queue[k]] == a && valid[queue[k]] {
          return true;
        }
        k := k + 1;
      }
      assert forall j | 0 <= j < |queue| :: Members()[j] == addr[queue[j]];
      found := false;
    }

    method FreeSlot() returns (i: nat)
      requires Valid()
      ensures i <= NUM_ACL
      ensures i < NUM_ACL ==> !valid[i]
      ensures i == NUM_ACL <==> |queue| == NUM_ACL
    {
      i := 0;
      while i < NUM_ACL && valid[i]
        invariant i <= NUM_ACL
        invariant forall j | 0 <= j < i :: valid[j]
      {
        i := i + 1;
      }
      assert forall x | x in queue :: x < NUM_ACL && valid[x];
      DistinctBelow(queue, NUM_ACL);
      if i == NUM_ACL {
        assert forall x: nat | x < NUM_ACL :: valid[..][x];
        NoneMissing(queue, NUM_ACL);
      } else if |queue| == NUM_ACL {
        FullHasAll(queue, i);
      }
    }

    /** Fills a free slot and appends it to the list. */
    method Take(i: nat, a: Mac)
      requires Valid() && i < NUM_ACL && !valid[i] && a !in Members()
      modifies this, valid, addr
      ensures Valid() && Members() == old(Members()) + [a]
    {
      ghost var ms := Members();
      assert i !in queue;
      addr[i] := a;
      valid[i] := true;
      queue := queue + [i];
      num := num + 1;
      assert forall k | 0 <= k < |queue| - 1 :: queue[k] != i;
      assert Members() == ms + [a];
    }

    /** Fails exactly if the address is absent and the pool is full. */
    method AddSta(a: Mac) returns (ok: bool)
      requires Valid()
      modifies this, valid, addr
      ensures Valid() && Members() == Step(old(Members()), Add(a))
      ensures !ok <==> Refuses(old(Members()), a)
    {
      var existed := Exists(a);
      if existed {
        return true;
      }
      if num >= NUM_ACL {
        return false;
      }
      var i := FreeSlot();
      Take(i, a);
      ok := true;
    }

    /** Unlinks node `k` of the list and frees its slot. */
    method Drop(k: nat)
      requires Valid() && k < |queue|
      modifies this, valid
      ensures Valid() && queue == Out(old(queue), k) && Members() == old(Members()[..k] + Members()[k + 1..])
    {
      ghost var q, ms := queue, Members();
      OutIsDistinct(queue, k);
      valid[queue[k]] := false;
      queue := queue[..k] + queue[k + 1..];
      num := num - 1;
      Relinked(q, k, old(valid[..]), valid[..]);
      assert Members() == ms[..k] + ms[k + 1..];
      assert forall i | 0 <= i < |Members()| :: Members()[i] == if i < k then ms[i] else ms[i + 1];
    }

    ghost predicate Walking(k: nat, was: seq<Mac>, seen: nat, every: bool, a: Mac)
      reads this, valid, addr
    {
      Valid() && SweptUpTo(Members(), k, was, seen, every, a)
    }

    /** One node of the walk. */
    method Visit(k: nat, every: bool, a: Mac, ghost was: seq<Mac>, ghost seen: nat) returns (next: nat)
      requires Walking(k, was, seen, every, a) && k < |queue|
      modifies this, valid
      ensures Walking(next, was, seen + 1, every, a) && |queue| - next < old(|queue|) - k
    {
      assert Members()[k] == addr[queue[k]];
      SweepOne(Members(), k, was, seen, every, a);
      next := k;
      if every || addr[queue[k]] == a {
        Drop(k);
      } else {
        next := k + 1;
      }
    }

    /** The walk shared by removal, broadcast removal and clearing. */
    method Sweep(every: bool, a: Mac)
      requires Valid()
      modifies this, valid
      ensures Valid() && Members() == if every then [] else Except(old(Members()), a)
    {
      hide Linked, Distinct, Except, Read;
      ghost var was := Members();
      SweepStart(was, every, a);
      ghost var seen: nat := 0;
      var k: nat := 0;
      while k < |queue|
        invariant Walking(k, was, seen, every, a)
        decreases |queue| - k
      {
        k := Visit(k, every, a, was, seen);
        seen := seen + 1;
      }
      SweepDone(Members(), k, was, seen, every, a);
    }

    /** Takes the address out, or every address if it is the broadcast address. */
    method RemoveSta(a: Mac)
      requires Valid()
      modifies this, valid
      ensures Valid() && Members() == Step(old(Members()), Remove(a))
    {
      Sweep(a == BROADCAST, a);
    }

    method ClearAll()
      requires Valid()
      modifies this, valid
      ensures Valid() && Members() == Step(old(Members()), Clear) && num == 0
    {
      Sweep(true, BROADCAST);
    }
  }

  lemma {:induction false} ExceptConcat(x: seq<Mac>, y: seq<Mac>, a: Mac)
    ensures Except(x + y, a) == Except(x, a) + Except(y, a)
  {
    if x == [] {
      assert x + y == y;
    } else {
      ExceptConcat(x[1..], y, a);
      HeadOfConcat(x, y);
      Assoc(if x[0] == a then [] else [x[0]], Except(x[1..], a), Except(y, a));
    }
  }

  /** The walk stands at node `k` and has seen that many of the addresses that were there. */
  ghost predicate SweptUpTo(ms: seq<Mac>, k: nat, was: seq<Mac>, seen: nat, every: bool, a: Mac) {
    && k <= |ms| && seen <= |was|
    && ms[k..] == was[seen..]
    && ms[..k] == if every then [] else Except(was[..seen], a)
  }

  lemma SweepStart(was: seq<Mac>, every: bool, a: Mac)
    ensures SweptUpTo(was, 0, was, 0, every, a)
  {
  }

  lemma SweepOne(ms: seq<Mac>, k: nat, was: seq<Mac>, seen: nat, every: bool, a: Mac)
    requires SweptUpTo(ms, k, was, seen, every, a) && k < |ms|
    ensures if every || ms[k] == a then SweptUpTo(ms[..k] + ms[k + 1..], k, was, seen + 1, every, a)
            else SweptUpTo(ms, k + 1, was, seen + 1, every, a)
  {
    assert |ms[k..]| == |was[seen..]|;
    assert ms[k] == ms[k..][0] == was[seen];
    assert ms[k + 1..] == ms[k..][1..] == was[seen..][1..] == was[seen + 1..];
    Take(ms, k);
    Take(was, seen);
    ExceptLast(was[..seen], was[seen], a);
    Parts([], ms[..k], ms[k + 1..]);
    assert [] + ms[..k] == ms[..k];
  }

  lemma SweepDone(ms: seq<Mac>, k: nat, was: seq<Mac>, seen: nat, every: bool, a: Mac)
    requires SweptUpTo(ms, k, was, seen, every, a) && k == |ms|
    ensures ms == if every then [] else Except(was, a)
  {
    assert |ms[k..]| == |was[seen..]| == 0;
    assert was[..seen] == was && ms[..k] == ms;
  }

  lemma ExceptLast(s: seq<Mac>, x: Mac, a: Mac)
    ensures Except(s + [x], a) == if x == a then Except(s, a) else Except(s, a) + [x]
  {
    ExceptConcat(s, [x], a);
    assert [x][1..] == [] && Except([], a) == [];
  }

  lemma Relinked(queue: seq<nat>, k: nat, valid: seq<bool>, valid': seq<bool>)
    requires Linked(queue, valid) && k < |queue| && |valid'| == |valid|
    requires forall i | 0 <= i < |valid| :: valid'[i] == (valid[i] && i != queue[k])
    ensures Linked(Out(queue, k), valid')
  {
    OutIsDistinct(queue, k);
    var q := Out(queue, k);
    assert forall i | 0 <= i < |q| :: q[i] in q;
  }
}
