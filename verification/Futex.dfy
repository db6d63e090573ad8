/** Futex wait queues (common/task/task, futex.rs and syscall/futex.rs). */
module Futexes {
  import opened Bytes

  /** A waiting task, by tid, the bits it waits for and until when. Nobody looks at the
      time again: a waiter stays until it is woken. */
  datatype Waiter = Waiter(tid: nat, bitset: u32, waitTime: Option<u64>)

  type u32 = x: int | 0 <= x < 0x1_0000_0000

  const MATCH_ANY: u32 := 0x1_0000_0000 - 1

  type Queues = map<nat, seq<Waiter>>

  /** The waiters that a mask hits: those with a bit in common with it. */
  function Hits(mask: u32): Waiter -> bool {
    (w: Waiter) => CommonBit(w.bitset, mask)
  }

  /** The binary numerals of `a` and `b` have a one in the same place. */
  predicate CommonBit(a: nat, b: nat) {
    a != 0 && b != 0 && ((a % 2 == 1 && b % 2 == 1) || CommonBit(a / 2, b / 2))
  }

  /** The binary numeral of `a` has a one at place `k`: halved `k` times, `a` is odd. */
  predicate Bit(a: nat, k: nat) {
    if k == 0 then a % 2 == 1 else Bit(a / 2, k - 1)
  }

  ghost predicate BothAt(a: nat, b: nat, k: nat) {
    Bit(a, k) && Bit(b, k)
  }

  /** Having a bit in common means that some place has a one in both. */
  lemma {:induction false} CommonBitIff(a: nat, b: nat)
    ensures CommonBit(a, b) <==> exists k: nat :: BothAt(a, b, k)
  {
    if CommonBit(a, b) {
      var k := CommonPlace(a, b);
      assert BothAt(a, b, k);
    }
    forall k: nat | BothAt(a, b, k) ensures CommonBit(a, b) {
      PlaceIsCommon(a, b, k);
    }
  }

  lemma {:induction false} CommonPlace(a: nat, b: nat) returns (k: nat)
    requires CommonBit(a, b)
    ensures Bit(a, k) && Bit(b, k)
  {
    if a % 2 == 1 && b % 2 == 1 {
      return 0;
    }
    var j := CommonPlace(a / 2, b / 2);
    k := j + 1;
  }

  lemma {:induction false} PlaceIsCommon(a: nat, b: nat, k: nat)
    requires Bit(a, k) && Bit(b, k)
    ensures CommonBit(a, b)
    decreases k
  {
    if k > 0 {
      PlaceIsCommon(a / 2, b / 2, k - 1);
    }
  }

  function Power2(k: nat): (r: nat)
    ensures r > 0
  {
    if k == 0 then 1 else 2 * Power2(k - 1)
  }

  lemma {:induction false} AllOnes(a: nat, k: nat)
    requires a < Power2(k)
    ensures CommonBit(a, Power2(k) - 1) <==> a != 0
  {
    if k > 0 {
      AllOnes(a / 2, k - 1);
      assert (Power2(k) - 1) / 2 == Power2(k - 1) - 1 && (Power2(k) - 1) % 2 == 1;
    }
  }

  /** A wake for any bit hits exactly the waiters with a bit at all. */
  lemma MatchAnyHits(w: Waiter)
    ensures Hits(MATCH_ANY)(w) <==> w.bitset != 0
  {
    Power2Of32();
    AllOnes(w.bitset, 32);
  }

  lemma Power2Of32()
    ensures Power2(32) == 0x1_0000_0000
  {
    assert Power2(8) == 0x100;
    assert Power2(12) == 0x1000;
    assert Power2(16) == 0x1_0000;
    assert Power2(20) == 0x10_0000;
    assert Power2(24) == 0x100_0000;
    assert Power2(28) == 0x1000_0000;
  }

  /** The queue of a futex; a futex nobody ever waited on has an empty one. */
  function Queue(m: Queues, futex: nat): seq<Waiter> {
    if futex in m then m[futex] else []
  }

  /** The oldest `num` waiters that `hit` takes in. */
  function Woken(q: seq<Waiter>, num: nat, hit: Waiter -> bool): (r: seq<Waiter>)
    ensures |r| <= num && |r| <= |q|
  {
    if q == [] || num == 0 then []
    else if hit(q[0]) then [q[0]] + Woken(q[1..], num - 1, hit)
    else Woken(q[1..], num, hit)
  }

  /** The others, in order. */
  function Left(q: seq<Waiter>, num: nat, hit: Waiter -> bool): seq<Waiter> {
    if q == [] || num == 0 then q
    else if hit(q[0]) then Left(q[1..], num - 1, hit)
    else [q[0]] + Left(q[1..], num, hit)
  }

  /** When `hit` takes in everyone the oldest are woken and the rest stay. */
  lemma {:induction false} AllHit(q: seq<Waiter>, num: nat, hit: Waiter -> bool)
    requires forall i :: 0 <= i < |q| ==> hit(q[i])
    ensures Woken(q, num, hit) == q[..Min(num, |q|)] && Left(q, num, hit) == q[Min(num, |q|)..]
    decreases |q|
  {
    if q != [] && num > 0 {
      var k := Min(num - 1, |q| - 1);
      AllHit(q[1..], num - 1, hit);
      assert [q[0]] + q[1..][..k] == q[..k + 1] && q[1..][k..] == q[k + 1..];
    }
  }

  function Filter(q: seq<Waiter>, p: Waiter -> bool): (r: seq<Waiter>)
    ensures |r| <= |q|
  {
    if q == [] then [] else (if p(q[0]) then [q[0]] else []) + Filter(q[1..], p)
  }

  lemma FilterNext(q: seq<Waiter>, p: Waiter -> bool)
    requires q != []
    ensures Filter(q, p) == if p(q[0]) then [q[0]] + Filter(q[1..], p) else Filter(q[1..], p)
  {
  }

  /** Putting a waiter in front of a queue. */
  lemma FilterFront(w: Waiter, q: seq<Waiter>, p: Waiter -> bool)
    ensures Filter([w] + q, p) == if p(w) then [w] + Filter(q, p) else Filter(q, p)
  {
    assert ([w] + q)[1..] == q;
  }

  lemma {:induction false} OthersStay(q: seq<Waiter>, num: nat, hit: Waiter -> bool, other: Waiter -> bool)
    requires forall w :: other(w) <==> !hit(w)
    ensures Filter(Left(q, num, hit), other) == Filter(q, other)
    decreases |q|
  {
    if q != [] && num > 0 {
      FilterNext(q, other);
      if hit(q[0]) {
        OthersStay(q[1..], num - 1, hit, other);
      } else {
        OthersStay(q[1..], num, hit, other);
        FilterFront(q[0], Left(q[1..], num, hit), other);
      }
    }
  }

  lemma FrontSlices(w: Waiter, q: seq<Waiter>, k: nat)
    requires k <= |q|
    ensures ([w] + q)[..k + 1] == [w] + q[..k] && ([w] + q)[k + 1..] == q[k..]
  {
  }

  /** Among the waiters taken in the oldest are woken, in order of arrival, and the
      younger ones stay in order; so do all the others. */
  lemma {:induction false} OldestFirst(q: seq<Waiter>, num: nat, hit: Waiter -> bool)
    ensures var k := Min(num, |Filter(q, hit)|);
      && Woken(q, num, hit) == Filter(q, hit)[..k]
      && Filter(Left(q, num, hit), hit) == Filter(q, hit)[k..]
    ensures Filter(Left(q, num, hit), w => !hit(w)) == Filter(q, w => !hit(w))
    decreases |q|
  {
    OldestWoken(q, num, hit);
    YoungerLeft(q, num, hit);
    OthersStay(q, num, hit, w => !hit(w));
  }

  lemma {:induction false} OldestWoken(q: seq<Waiter>, num: nat, hit: Waiter -> bool)
    ensures Woken(q, num, hit) == Filter(q, hit)[..Min(num, |Filter(q, hit)|)]
    decreases |q|
  {
    if q != [] && num > 0 {
      FilterNext(q, hit);
      if hit(q[0]) {
        OldestWoken(q[1..], num - 1, hit);
        var f := Filter(q[1..], hit);
        FrontSlices(q[0], f, Min(num - 1, |f|));
      } else {
        OldestWoken(q[1..], num, hit);
      }
    }
  }

  lemma {:induction false} YoungerLeft(q: seq<Waiter>, num: nat, hit: Waiter -> bool)
    ensures Filter(Left(q, num, hit), hit) == Filter(q, hit)[Min(num, |Filter(q, hit)|)..]
    decreases |q|
  {
    if q != [] && num > 0 {
      FilterNext(q, hit);
      if hit(q[0]) {
        YoungerLeft(q[1..], num - 1, hit);
        var f := Filter(q[1..], hit);
        FrontSlices(q[0], f, Min(num - 1, |f|));
      } else {
        YoungerLeft(q[1..], num, hit);
        FilterFront(q[0], Left(q[1..], num, hit), hit);
      }
    }
  }

  /** How often `w` occurs in a queue. */
  ghost function Occurs(q: seq<Waiter>, w: Waiter): nat {
    if q == [] then 0 else (if q[0] == w then 1 else 0) + Occurs(q[1..], w)
  }

  lemma {:induction false} OccursConcat(p: seq<Waiter>, q: seq<Waiter>, w: Waiter)
    ensures Occurs(p + q, w) == Occurs(p, w) + Occurs(q, w)
    decreases |p|
  {
    if p == [] {
      assert p + q == q;
    } else {
      assert (p + q)[1..] == p[1..] + q;
      OccursConcat(p[1..], q, w);
    }
  }

  /** Waking splits a queue: everyone is either woken, because `hit` takes it in, or left. */
  lemma {:induction false} WokenAndLeft(q: seq<Waiter>, num: nat, hit: Waiter -> bool, w: Waiter)
    ensures Occurs(q, w) == Occurs(Woken(q, num, hit), w) + Occurs(Left(q, num, hit), w)
    ensures !hit(w) ==> Occurs(Woken(q, num, hit), w) == 0
    ensures |Woken(q, num, hit)| < num && hit(w) ==> Occurs(Left(q, num, hit), w) == 0
    decreases |q|
  {
    if q != [] && num > 0 {
      if hit(q[0]) {
        WokenAndLeft(q[1..], num - 1, hit, w);
        assert Woken(q, num, hit)[1..] == Woken(q[1..], num - 1, hit);
      } else {
        WokenAndLeft(q[1..], num, hit, w);
        assert Left(q, num, hit)[1..] == Left(q[1..], num, hit);
      }
    }
  }

  // ---------------------------------------------------------------- the queues as a whole

  function AfterAdd(m: Queues, futex: nat, w: Waiter): Queues {
    m[futex := Queue(m, futex) + [w]]
  }

  function AfterWake(m: Queues, futex: nat, num: nat, mask: u32): Queues {
    if futex in m then m[futex := Left(m[futex], num, Hits(mask))] else m
  }

  /** How many waiters a request to move `num` moves. */
  function MoveCount(m: Queues, num: nat, old_futex: nat): (r: nat)
    ensures r <= |Queue(m, old_futex)|
  {
    Min(num, |Queue(m, old_futex)|)
  }

  /** Requeueing takes the youngest waiters, enters them at the target, and puts the
      others back, in this order. */
  function AfterRequeue(m: Queues, target: nat, num: nat, source: nat): Queues {
    if num == 0 || source !in m then m
    else
      var q := m[source];
      var split := |q| - MoveCount(m, num, source);
      var m1 := m - {source};
      var m2 := m1[target := Queue(m1, target) + q[split..]];
      if q[..split] == [] then m2 else m2[source := q[..split]]
  }

  /** What one turn of the wake loop does to the waiters from `index` on. */
  lemma WakeTurn(q: seq<Waiter>, index: nat, num: nat, hit: Waiter -> bool)
    requires index < |q| && num > 0
    ensures var (first, rest, taken) := (q[index], q[index + 1..], q[..index] + q[index + 1..]);
      if hit(first) then
        && Woken(q[index..], num, hit) == [first] + Woken(taken[index..], num - 1, hit)
        && q[..index] + Left(q[index..], num, hit) == taken[..index] + Left(taken[index..], num - 1, hit)
      else
        && Woken(q[index..], num, hit) == Woken(rest, num, hit)
        && q[..index] + Left(q[index..], num, hit) == q[..index + 1] + Left(rest, num, hit)
  {
    var taken := q[..index] + q[index + 1..];
    assert q[index..][1..] == q[index + 1..] == taken[index..] && taken[..index] == q[..index];
    var left := Left(q[index + 1..], num, hit);
    assert q[..index] + ([q[index]] + left) == q[..index + 1] + left;
  }

  class FutexWaitManager {
    var queues: Queues

    constructor ()
      ensures queues == map[]
    {
      queues := map[];
    }

    method AddWaiter(futex: nat, waiter: Waiter)
      modifies this
      ensures queues == AfterAdd(old(queues), futex, waiter)
    {
      if futex !in queues {
        queues := queues[futex := []];
      }
      queues := queues[futex := queues[futex] + [waiter]];
    }

    /** Wakes at most `num` waiters that the mask hits, oldest first, and returns
        them. */
    method Wake(futex: nat, num: nat, mask: u32) returns (woken: seq<Waiter>)
      modifies this
      ensures woken == Woken(Queue(old(queues), futex), num, Hits(mask))
      ensures queues == AfterWake(old(queues), futex, num, mask)
    {
      woken := [];
      if futex !in queues {
        return;
      }
      ghost var q := queues[futex];
      var waiters := queues[futex];
      var index := 0;
      assert waiters[..0] == [];
      while index < |waiters| && |woken| < num
        invariant queues == old(queues) && index <= |waiters| && |woken| <= num
        invariant woken + Woken(waiters[index..], num - |woken|, Hits(mask)) == Woken(q, num, Hits(mask))
        invariant waiters[..index] + Left(waiters[index..], num - |woken|, Hits(mask)) == Left(q, num, Hits(mask))
        decreases |waiters| - index
      {
        WakeTurn(waiters, index, num - |woken|, Hits(mask));
        if Hits(mask)(waiters[index]) {
          woken := woken + [waiters[index]];
          waiters := waiters[..index] + waiters[index + 1..];
        } else {
          index := index + 1;
        }
      }
      assert waiters[..index] + waiters[index..] == waiters && woken + [] == woken;
      assert waiters == Left(q, num, Hits(mask));
      queues := queues[futex := waiters];
    }

    /** Moves at most `num` waiters, the youngest, from one futex to another. */
    method Requeue(target: nat, num: nat, source: nat) returns (count: nat)
      modifies this
      ensures count == MoveCount(old(queues), num, source)
      ensures queues == AfterRequeue(old(queues), target, num, source)
    {
      if num == 0 || source !in queues {
        return 0;
      }
      var waiters := queues[source];
      queues := queues - {source};
      count := Min(num, |waiters|);
      var split := |waiters| - count;
      var moved := waiters[split..];
      waiters := waiters[..split];
      if target !in queues {
        queues := queues[target := []];
      }
      queues := queues[target := queues[target] + moved];
      if waiters != [] {
        queues := queues[source := waiters];
      }
    }
  }

  // ---------------------------------------------------------------- what happens to each queue

  lemma QueueAfterWake(m: Queues, futex: nat, num: nat, mask: u32)
    ensures Queue(AfterWake(m, futex, num, mask), futex) == Left(Queue(m, futex), num, Hits(mask))
    ensures forall f {:trigger Queue(AfterWake(m, futex, num, mask), f)} :: f != futex ==>
      Queue(AfterWake(m, futex, num, mask), f) == Queue(m, f)
  {
  }

  lemma SourceAfterRequeue(m: Queues, target: nat, num: nat, source: nat)
    requires target != source
    ensures var q := Queue(m, source);
      Queue(AfterRequeue(m, target, num, source), source) == q[..|q| - Min(num, |q|)]
  {
  }

  /** The youngest of the queue `source` are now at the end of the queue `target`. */
  lemma TargetAfterRequeue(m: Queues, target: nat, num: nat, source: nat)
    requires target != source
    ensures var q := Queue(m, source);
      Queue(AfterRequeue(m, target, num, source), target) == Queue(m, target) + q[|q| - Min(num, |q|)..]
  {
    assert Queue(m, target) + [] == Queue(m, target);
    if source in m {
      assert m[source][|m[source]|..] == [];
    }
  }

  lemma OthersAfterRequeue(m: Queues, target: nat, num: nat, source: nat)
    ensures forall f {:trigger Queue(AfterRequeue(m, target, num, source), f)} :: f != source && f != target ==>
      Queue(AfterRequeue(m, target, num, source), f) == Queue(m, f)
  {
  }

  // ---------------------------------------------------------------- conservation

  /** How often `w` waits in the queues of addresses below `n`. */
  ghost function Waiting(m: Queues, n: nat, w: Waiter): nat {
    if n == 0 then 0 else Waiting(m, n - 1, w) + Occurs(Queue(m, n - 1), w)
  }

  /** Two tables that differ at most at one address. */
  lemma {:induction false} WaitingChange(m: Queues, m': Queues, a: nat, n: nat, w: Waiter)
    requires forall f: nat :: f != a ==> Queue(m, f) == Queue(m', f)
    ensures Waiting(m', n, w) - Waiting(m, n, w) ==
      if a < n then Occurs(Queue(m', a), w) - Occurs(Queue(m, a), w) else 0
  {
    if n > 0 {
      WaitingChange(m, m', a, n - 1, w);
    }
  }

  lemma AddConserves(m: Queues, futex: nat, waiter: Waiter, n: nat, w: Waiter)
    requires futex < n
    ensures Waiting(AfterAdd(m, futex, waiter), n, w) == Waiting(m, n, w) + (if w == waiter then 1 else 0)
  {
    WaitingChange(m, AfterAdd(m, futex, waiter), futex, n, w);
    OccursConcat(Queue(m, futex), [waiter], w);
  }

  lemma WakeConserves(m: Queues, futex: nat, num: nat, mask: u32, n: nat, w: Waiter)
    requires futex < n
    ensures Waiting(m, n, w) ==
      Occurs(Woken(Queue(m, futex), num, Hits(mask)), w) + Waiting(AfterWake(m, futex, num, mask), n, w)
  {
    WaitingChange(m, AfterWake(m, futex, num, mask), futex, n, w);
    WokenAndLeft(Queue(m, futex), num, Hits(mask), w);
  }

  /** The requeue asks to move part of a queue onto itself. */
  predicate Overwrites(m: Queues, target: nat, num: nat, source: nat) {
    target == source && 0 < num < |Queue(m, source)|
  }

  lemma {:induction false} RequeueConserves(m: Queues, target: nat, num: nat, source: nat, n: nat, w: Waiter)
    requires target < n && source < n && !Overwrites(m, target, num, source)
    ensures Waiting(AfterRequeue(m, target, num, source), n, w) == Waiting(m, n, w)
  {
    if target != source {
      RequeueToOther(m, target, num, source, n, w);
    } else if num > 0 && source in m {
      var q := m[source];
      assert q[..0] == [] && q[0..] == q && [] + q == q;
      WaitingChange(m, AfterRequeue(m, target, num, source), source, n, w);
    }
  }

  lemma RequeueToOther(m: Queues, target: nat, num: nat, source: nat, n: nat, w: Waiter)
    requires target < n && source < n && target != source
    ensures Waiting(AfterRequeue(m, target, num, source), n, w) == Waiting(m, n, w)
  {
    var m' := AfterRequeue(m, target, num, source);
    var q := Queue(m, source);
    var split := |q| - MoveCount(m, num, source);
    SourceAfterRequeue(m, target, num, source);
    TargetAfterRequeue(m, target, num, source);
    OthersAfterRequeue(m, target, num, source);
    var mid := m[source := q[..split]];
    WaitingChange(m, mid, source, n, w);
    WaitingChange(mid, m', target, n, w);
    OccursSplit(q, split, w);
    OccursConcat(Queue(m, target), q[split..], w);
  }

  lemma OccursSplit(q: seq<Waiter>, split: nat, w: Waiter)
    requires split <= |q|
    ensures Occurs(q, w) == Occurs(q[..split], w) + Occurs(q[split..], w)
  {
    assert q == q[..split] + q[split..];
    OccursConcat(q[..split], q[split..], w);
  }

  /** Requeueing keeps every waiter exactly unless it moves part of a queue onto itself:
      then the waiters put back overwrite the ones that moved. */
  lemma {:induction false} RequeueConservesIff(m: Queues, target: nat, num: nat, source: nat, n: nat)
    requires target < n && source < n
    ensures (forall w :: Waiting(AfterRequeue(m, target, num, source), n, w) == Waiting(m, n, w))
       <==> !Overwrites(m, target, num, source)
  {
    if Overwrites(m, target, num, source) {
      var w := SomeoneOverwritten(m, target, num, source, n);
    } else {
      forall w ensures Waiting(AfterRequeue(m, target, num, source), n, w) == Waiting(m, n, w) {
        RequeueConserves(m, target, num, source, n, w);
      }
    }
  }

  lemma SomeoneOverwritten(m: Queues, target: nat, num: nat, source: nat, n: nat) returns (w: Waiter)
    requires source < n && Overwrites(m, target, num, source)
    ensures Waiting(AfterRequeue(m, target, num, source), n, w) < Waiting(m, n, w)
  {
    var q := m[source];
    var split := |q| - num;
    w := q[split];
    WaitingChange(m, AfterRequeue(m, target, num, source), source, n, w);
    OccursSplit(q, split, w);
    assert q[split..][0] == w && Occurs(q[split..], w) > 0;
  }

  /** A requeue never makes a waiter wait twice. */
  lemma RequeueNeverAdds(m: Queues, target: nat, num: nat, source: nat, n: nat, w: Waiter)
    requires target < n && source < n
    ensures Waiting(AfterRequeue(m, target, num, source), n, w) <= Waiting(m, n, w)
  {
    if Overwrites(m, target, num, source) {
      WaitingChange(m, AfterRequeue(m, target, num, source), source, n, w);
      OccursSplit(m[source], |m[source]| - num, w);
    } else {
      RequeueConserves(m, target, num, source, n, w);
    }
  }

  // ---------------------------------------------------------------- the system call

  /** The operation a call names. `Unknown` stands for all numbers that name none, and
      `Other` for the operations that are named but not provided. */
  datatype FutexOp =
    | FutexWait | FutexWaitBitset | FutexWake | FutexWakeBitset | FutexRequeue | FutexCmpRequeuePi | Other | Unknown

  /** The arguments of a call by task `tid`. `uValue` is the word at `uaddr`, and
      `timeSpec` the time span at `val2`, if the task can read them; `now` is the time. */
  datatype Call = Call(op: FutexOp, tid: nat, uaddr: nat, val: u32, val2: nat, uaddr2: nat, val3: u32,
                       uValue: Option<u64>, timeSpec: Option<u64>, now: u64)

  /** What a call does: it fails, it returns a number, it blocks, or it panics. */
  datatype Reply = EINVAL | EAGAIN | ENOSYS | Count(n: nat) | Blocks | Panics

  /** The call as a function on the queues; the last component are the waiters woken. */
  function Futex(m: Queues, c: Call): (r: (Queues, Reply, seq<Waiter>)) {
    match c.op
    case FutexWait => WaitCall(m, c, Waiter(c.tid, MATCH_ANY, Deadline(c)))
    case FutexWaitBitset => WaitCall(m, c, Waiter(c.tid, c.val3, Deadline(c)))
    case FutexWake => WakeCall(m, c.uaddr, c.val, MATCH_ANY)
    case FutexWakeBitset => WakeCall(m, c.uaddr, c.val, c.val3)
    case FutexRequeue => RequeueCall(m, c)
    case FutexCmpRequeuePi =>
      if c.uValue.None? then (m, Panics, [])
      else if c.uValue.value != c.val3 then (m, EAGAIN, [])
      else RequeueCall(m, c)
    case Other => (m, ENOSYS, [])
    case Unknown => (m, EINVAL, [])
  }

  /** How long a wait is to last: a span from now, or with a bitset a point in time. */
  function Deadline(c: Call): Option<u64> {
    if c.val2 == 0 || c.timeSpec.None? then None
    else Some((c.timeSpec.value + (if c.op == FutexWait then c.now else 0)) % USIZE_RANGE)
  }

  /** A wait reads the word, compares it, and only then reads the time span. */
  function WaitCall(m: Queues, c: Call, w: Waiter): (Queues, Reply, seq<Waiter>) {
    if c.uValue.None? then (m, Panics, [])
    else if c.uValue.value != c.val then (m, EAGAIN, [])
    else if c.val2 != 0 && c.timeSpec.None? then (m, Panics, [])
    else (AfterAdd(m, c.uaddr, w), Blocks, [])
  }

  function WakeCall(m: Queues, futex: nat, num: nat, mask: u32): (Queues, Reply, seq<Waiter>) {
    var woken := Woken(Queue(m, futex), num, Hits(mask));
    (AfterWake(m, futex, num, mask), Count(|woken|), woken)
  }

  function RequeueCall(m: Queues, c: Call): (Queues, Reply, seq<Waiter>) {
    WakeAndRequeued(m, c, MATCH_ANY)
  }

  function WakeAndRequeued(m: Queues, c: Call, mask: u32): (Queues, Reply, seq<Waiter>) {
    var woken := Woken(Queue(m, c.uaddr), c.val, Hits(mask));
    var m1 := AfterWake(m, c.uaddr, c.val, mask);
    (AfterRequeue(m1, c.uaddr2, c.val2, c.uaddr), Count(|woken| + MoveCount(m1, c.val2, c.uaddr)), woken)
  }

  method FutexSyscall(manager: FutexWaitManager, c: Call) returns (r: Reply, woken: seq<Waiter>)
    modifies manager
    ensures Futex(old(manager.queues), c) == (manager.queues, r, woken)
  {
    woken := [];
    match c.op {
      case FutexWait =>
        r := Wait(manager, c, MATCH_ANY);
      case FutexWaitBitset =>
        r := Wait(manager, c, c.val3);
      case FutexWake =>
        woken := manager.Wake(c.uaddr, c.val, MATCH_ANY);
        r := Count(|woken|);
      case FutexWakeBitset =>
        woken := manager.Wake(c.uaddr, c.val, c.val3);
        r := Count(|woken|);
      case FutexRequeue =>
        r, woken := WakeAndRequeue(manager, c);
      case FutexCmpRequeuePi =>
        if c.uValue.None? {
          return Panics, [];
        }
        if c.uValue.value != c.val3 {
          return EAGAIN, [];
        }
        r, woken := WakeAndRequeue(manager, c);
      case Other =>
        r := ENOSYS;
      case Unknown =>
        r := EINVAL;
    }
  }

  method Wait(manager: FutexWaitManager, c: Call, bitset: u32) returns (r: Reply)
    modifies manager
    ensures WaitCall(old(manager.queues), c, Waiter(c.tid, bitset, Deadline(c))) == (manager.queues, r, [])
  {
    if c.uValue.None? {
      return Panics;
    }
    if c.uValue.value != c.val {
      return EAGAIN;
    }
    var waitTime: Option<u64> := None;
    if c.val2 != 0 {
      if c.timeSpec.None? {
        return Panics;
      }
      waitTime := Some((c.timeSpec.value + (if c.op == FutexWait then c.now else 0)) % USIZE_RANGE);
    }
    manager.AddWaiter(c.uaddr, Waiter(c.tid, bitset, waitTime));
    r := Blocks;
  }

  method WakeAndRequeue(manager: FutexWaitManager, c: Call) returns (r: Reply, woken: seq<Waiter>)
    modifies manager
    ensures RequeueCall(old(manager.queues), c) == (manager.queues, r, woken)
  {
    woken := manager.Wake(c.uaddr, c.val, MATCH_ANY);
    var moved := manager.Requeue(c.uaddr2, c.val2, c.uaddr);
    r := Count(|woken| + moved);
  }

  /** Wake-and-requeue between two addresses cuts a queue in three: the oldest are
      woken, the youngest go to the end of the other queue, the middle stays. */
  lemma {:induction false} RequeueCutsInThree(m: Queues, c: Call)
    requires c.uaddr != c.uaddr2
    requires forall i :: 0 <= i < |Queue(m, c.uaddr)| ==> Queue(m, c.uaddr)[i].bitset != 0
    ensures CutInThree(m, c, RequeueCall(m, c))
  {
    AnyHit(Queue(m, c.uaddr), c.val);
    CutsInThree(m, c, MATCH_ANY);
  }

  /** The queue at the first address is cut in the oldest `n`, which are woken, the
      youngest `k`, which go to the end of the queue at the second address, and the
      rest; no other queue changes. */
  ghost predicate CutInThree(m: Queues, c: Call, after: (Queues, Reply, seq<Waiter>)) {
    var q := Queue(m, c.uaddr);
    var n := Min(c.val, |q|);
    var k := Min(c.val2, |q| - n);
    && after.2 == q[..n]
    && Queue(after.0, c.uaddr) == q[n..|q| - k]
    && Queue(after.0, c.uaddr2) == Queue(m, c.uaddr2) + q[|q| - k..]
    && after.1 == Count(n + k)
    && forall f {:trigger Queue(after.0, f)} :: f != c.uaddr && f != c.uaddr2 ==> Queue(after.0, f) == Queue(m, f)
  }

  /** A wake takes the oldest `c.val` waiters at the first address. */
  ghost predicate WakesOldest(m: Queues, c: Call, mask: u32) {
    var q, n := Queue(m, c.uaddr), Min(c.val, |Queue(m, c.uaddr)|);
    Woken(q, c.val, Hits(mask)) == q[..n] && Left(q, c.val, Hits(mask)) == q[n..]
  }

  lemma CutsInThree(m: Queues, c: Call, mask: u32)
    requires c.uaddr != c.uaddr2 && WakesOldest(m, c, mask)
    ensures CutInThree(m, c, WakeAndRequeued(m, c, mask))
  {
    var m1 := AfterWake(m, c.uaddr, c.val, mask);
    var m2 := AfterRequeue(m1, c.uaddr2, c.val2, c.uaddr);
    RepliesCount(m, c, mask);
    QueueAfterWake(m, c.uaddr, c.val, mask);
    QueuesCut(m, m1, m2, c);
  }

  /** `CutInThree`, as far as the queues are concerned. */
  lemma QueuesCut(m: Queues, m1: Queues, m2: Queues, c: Call)
    requires c.uaddr != c.uaddr2 && m2 == AfterRequeue(m1, c.uaddr2, c.val2, c.uaddr)
    requires Queue(m1, c.uaddr) == Queue(m, c.uaddr)[Min(c.val, |Queue(m, c.uaddr)|)..]
    requires forall f {:trigger Queue(m1, f)} :: f != c.uaddr ==> Queue(m1, f) == Queue(m, f)
    ensures var q, n := Queue(m, c.uaddr), Min(c.val, |Queue(m, c.uaddr)|);
      var k := Min(c.val2, |q| - n);
      && Queue(m2, c.uaddr) == q[n..|q| - k]
      && Queue(m2, c.uaddr2) == Queue(m, c.uaddr2) + q[|q| - k..]
      && forall f {:trigger Queue(m2, f)} :: f != c.uaddr && f != c.uaddr2 ==> Queue(m2, f) == Queue(m, f)
  {
    var q, n := Queue(m, c.uaddr), Min(c.val, |Queue(m, c.uaddr)|);
    MiddleStays(m1, c.uaddr2, c.val2, c.uaddr, q, n);
    YoungestMove(m1, c.uaddr2, c.val2, c.uaddr, q, n);
    OthersAfterRequeue(m1, c.uaddr2, c.val2, c.uaddr);
  }

  lemma RepliesCount(m: Queues, c: Call, mask: u32)
    requires WakesOldest(m, c, mask)
    ensures var q, n := Queue(m, c.uaddr), Min(c.val, |Queue(m, c.uaddr)|);
      var (m2, r, woken) := WakeAndRequeued(m, c, mask);
      && woken == q[..n] && r == Count(n + Min(c.val2, |q| - n))
      && m2 == AfterRequeue(AfterWake(m, c.uaddr, c.val, mask), c.uaddr2, c.val2, c.uaddr)
  {
    QueueAfterWake(m, c.uaddr, c.val, mask);
  }

  lemma MiddleStays(m: Queues, target: nat, num: nat, source: nat, q: seq<Waiter>, n: nat)
    requires target != source && n <= |q| && Queue(m, source) == q[n..]
    ensures Queue(AfterRequeue(m, target, num, source), source) == q[n..|q| - Min(num, |q| - n)]
  {
    SourceAfterRequeue(m, target, num, source);
    Middle(q, Queue(m, source), n, num);
  }

  lemma YoungestMove(m: Queues, target: nat, num: nat, source: nat, q: seq<Waiter>, n: nat)
    requires target != source && n <= |q| && Queue(m, source) == q[n..]
    ensures Queue(AfterRequeue(m, target, num, source), target) == Queue(m, target) + q[|q| - Min(num, |q| - n)..]
  {
    TargetAfterRequeue(m, target, num, source);
    Youngest(q, Queue(m, source), n, num);
  }

  lemma Middle(q: seq<Waiter>, rest: seq<Waiter>, n: nat, num: nat)
    requires n <= |q| && rest == q[n..]
    ensures rest[..|rest| - Min(num, |rest|)] == q[n..|q| - Min(num, |q| - n)]
  {
  }

  lemma Youngest(q: seq<Waiter>, rest: seq<Waiter>, n: nat, num: nat)
    requires n <= |q| && rest == q[n..]
    ensures rest[|rest| - Min(num, |rest|)..] == q[|q| - Min(num, |q| - n)..]
  {
  }

  lemma AnyHit(q: seq<Waiter>, num: nat)
    requires forall i :: 0 <= i < |q| ==> q[i].bitset != 0
    ensures Woken(q, num, Hits(MATCH_ANY)) == q[..Min(num, |q|)] && Left(q, num, Hits(MATCH_ANY)) == q[Min(num, |q|)..]
  {
    forall i | 0 <= i < |q| ensures Hits(MATCH_ANY)(q[i]) {
      MatchAnyHits(q[i]);
    }
    AllHit(q, num, Hits(MATCH_ANY));
  }

  // ---------------------------------------------------------------- what a call does, by its arguments

  /** A wait blocks exactly if the word can be read and equals `val`, and the time span, if one
      is given, can be read; its waiter is then last in the queue, with the mask of the
      operation. Where the word differs the answer is EAGAIN. Only a call that blocks changes
      the queues. */
  lemma WaitOutcome(m: Queues, c: Call)
    requires c.op.FutexWait? || c.op.FutexWaitBitset?
    ensures var (m', r, woken) := Futex(m, c);
      && woken == []
      && (r == Blocks <==> c.uValue == Some(c.val) && (c.val2 == 0 || c.timeSpec.Some?))
      && (r == EAGAIN <==> c.uValue.Some? && c.uValue.value != c.val)
      && (r == Panics <==> c.uValue.None? || (c.uValue.value == c.val && c.val2 != 0 && c.timeSpec.None?))
      && (r == Blocks || r == EAGAIN || r == Panics) && (r != Blocks ==> m' == m)
    ensures var (m', r, _) := Futex(m, c);
      r == Blocks ==>
        && Queue(m', c.uaddr) == Queue(m, c.uaddr) + [WaiterOf(c)]
        && forall f {:trigger Queue(m', f)} :: f != c.uaddr ==> Queue(m', f) == Queue(m, f)
  {
  }

  /** The waiter a wait enters: any bit or those of `val3`; without an end if none is given,
      else for a time span from now, or with a bitset up to a point in time. */
  function WaiterOf(c: Call): Waiter {
    var plain := c.op.FutexWait?;
    var until :=
      if c.val2 == 0 || c.timeSpec.None? then None
      else if plain then Some((c.now + c.timeSpec.value) % USIZE_RANGE)
      else c.timeSpec;
    Waiter(c.tid, if plain then 0xffff_ffff else c.val3, until)
  }

  /** Where a wake of at most `num` waiters that `hit` takes in has got when it stops. */
  ghost function StopIndex(q: seq<Waiter>, num: nat, hit: Waiter -> bool): (i: nat)
    ensures i <= |q|
  {
    if q == [] || num == 0 then 0 else 1 + StopIndex(q[1..], if hit(q[0]) then num - 1 else num, hit)
  }

  lemma {:induction false} WokenUpTo(q: seq<Waiter>, num: nat, hit: Waiter -> bool)
    ensures var i := StopIndex(q, num, hit);
      Woken(q, num, hit) == Filter(q[..i], hit) && (|Woken(q, num, hit)| == num || i == |q|)
  {
    if q == [] || num == 0 {
      assert q[..0] == [];
    } else {
      var num1 := if hit(q[0]) then num - 1 else num;
      WokenUpTo(q[1..], num1, hit);
      var i := StopIndex(q[1..], num1, hit);
      assert q[..i + 1] == [q[0]] + q[1..][..i];
      FilterFront(q[0], q[1..][..i], hit);
    }
  }

  lemma {:induction false} LeftUpTo(q: seq<Waiter>, num: nat, hit: Waiter -> bool, other: Waiter -> bool)
    requires forall w :: other(w) <==> !hit(w)
    ensures var i := StopIndex(q, num, hit); Left(q, num, hit) == Filter(q[..i], other) + q[i..]
  {
    if q == [] || num == 0 {
      assert q[..0] == [] && [] + q == q;
    } else {
      var num1 := if hit(q[0]) then num - 1 else num;
      LeftUpTo(q[1..], num1, hit, other);
      var i := StopIndex(q[1..], num1, hit);
      assert q[..i + 1] == [q[0]] + q[1..][..i] && q[i + 1..] == q[1..][i..];
      FilterFront(q[0], q[1..][..i], other);
      assert [q[0]] + (Filter(q[1..][..i], other) + q[1..][i..]) == [q[0]] + Filter(q[1..][..i], other) + q[1..][i..];
    }
  }

  /** The waiters a wake is about: those with a bit in common with the mask, where a plain
      wake has every bit. */
  predicate IsMeant(c: Call, w: Waiter) {
    CommonBit(w.bitset, if c.op.FutexWakeBitset? then c.val3 else 0xffff_ffff)
  }

  function Meant(c: Call): Waiter -> bool {
    (w: Waiter) => IsMeant(c, w)
  }

  function NotMeant(c: Call): Waiter -> bool {
    (w: Waiter) => !IsMeant(c, w)
  }

  /** Of the first `i` waiters of `q` those the call is about are woken and the others stay;
      from there on everyone stays. It stops when it has woken `val` or met all. */
  ghost predicate StopsAt(q: seq<Waiter>, c: Call, i: nat, woken: seq<Waiter>, left: seq<Waiter>) {
    && i <= |q| && woken == Filter(q[..i], Meant(c)) && left == Filter(q[..i], NotMeant(c)) + q[i..]
    && |woken| <= c.val && (|woken| == c.val || i == |q|)
  }

  /** A wake goes through the queue at its address from the oldest on, wakes those it is about
      until there are `val`, and answers how many; the others stay in order, and so does
      every other queue. */
  lemma {:induction false} WakeOutcome(m: Queues, c: Call)
    requires c.op.FutexWake? || c.op.FutexWakeBitset?
    ensures var (m', r, woken) := Futex(m, c);
      && r == Count(|woken|)
      && (exists i: nat :: StopsAt(Queue(m, c.uaddr), c, i, woken, Queue(m', c.uaddr)))
      && forall f {:trigger Queue(m', f)} :: f != c.uaddr ==> Queue(m', f) == Queue(m, f)
  {
    var mask: u32 := if c.op.FutexWakeBitset? then c.val3 else MATCH_ANY;
    var q := Queue(m, c.uaddr);
    var i := StopIndex(q, c.val, Hits(mask));
    QueueAfterWake(m, c.uaddr, c.val, mask);
    WokenUpTo(q, c.val, Hits(mask));
    LeftUpTo(q, c.val, Hits(mask), NotMeant(c));
    SameFilter(q[..i], Hits(mask), Meant(c));
    var (m', r, woken) := Futex(m, c);
    assert StopsAt(q, c, i, woken, Queue(m', c.uaddr));
  }

  lemma {:induction false} SameFilter(q: seq<Waiter>, f: Waiter -> bool, g: Waiter -> bool)
    requires forall w :: f(w) <==> g(w)
    ensures Filter(q, f) == Filter(q, g)
  {
    if q != [] {
      SameFilter(q[1..], f, g);
    }
  }

  /** A plain wake of waiters that all wait for some bit wakes the oldest `val`. */
  lemma {:induction false} PlainWake(m: Queues, c: Call)
    requires c.op.FutexWake? && forall i :: 0 <= i < |Queue(m, c.uaddr)| ==> Queue(m, c.uaddr)[i].bitset != 0
    ensures var (m', r, woken) := Futex(m, c);
      var q, n := Queue(m, c.uaddr), Min(c.val, |Queue(m, c.uaddr)|);
      r == Count(n) && woken == q[..n] && Queue(m', c.uaddr) == q[n..]
  {
    AnyHit(Queue(m, c.uaddr), c.val);
    QueueAfterWake(m, c.uaddr, c.val, MATCH_ANY);
  }

  /** A compare-requeue answers EAGAIN exactly if the word can be read and is not `val3`, and
      otherwise, like a requeue, cuts the queue in three. */
  lemma {:induction false} RequeueOutcome(m: Queues, c: Call)
    requires c.op.FutexRequeue? || c.op.FutexCmpRequeuePi?
    ensures var (m', r, woken) := Futex(m, c);
      && (r == EAGAIN <==> c.op.FutexCmpRequeuePi? && c.uValue.Some? && c.uValue.value != c.val3)
      && (r == Panics <==> c.op.FutexCmpRequeuePi? && c.uValue.None?)
      && (r == EAGAIN || r == Panics ==> m' == m && woken == [])
    ensures var (m', r, woken) := Futex(m, c);
      && r != EAGAIN && r != Panics && c.uaddr != c.uaddr2
      && (forall i :: 0 <= i < |Queue(m, c.uaddr)| ==> Queue(m, c.uaddr)[i].bitset != 0)
      ==> CutInThree(m, c, (m', r, woken))
  {
    if c.uaddr != c.uaddr2 && forall i :: 0 <= i < |Queue(m, c.uaddr)| ==> Queue(m, c.uaddr)[i].bitset != 0 {
      RequeueCutsInThree(m, c);
    }
  }

  /** The other operations only fail. */
  lemma OtherOutcome(m: Queues, c: Call)
    requires c.op.Other? || c.op.Unknown?
    ensures Futex(m, c) == (m, if c.op.Other? then ENOSYS else EINVAL, [])
  {
  }

  // ---------------------------------------------------------------- runs

  /** The call's requeue is made, and moves part of a queue onto itself. */
  predicate Loses(m: Queues, c: Call) {
    && (c.op.FutexRequeue? || (c.op.FutexCmpRequeuePi? && c.uValue == Some(c.val3)))
    && Overwrites(AfterWake(m, c.uaddr, c.val, MATCH_ANY), c.uaddr2, c.val2, c.uaddr)
  }

  /** Some call of a run does. */
  predicate LosesAny(m: Queues, run: seq<Call>)
    decreases |run|
  {
    run != [] && (Loses(m, run[0]) || LosesAny(Futex(m, run[0]).0, run[1..]))
  }

  /** All addresses are below `n`. */
  predicate InRange(n: nat, run: seq<Call>) {
    forall i :: 0 <= i < |run| ==> run[i].uaddr < n && run[i].uaddr2 < n
  }

  ghost function AfterRun(m: Queues, run: seq<Call>): Queues
    decreases |run|
  {
    if run == [] then m else AfterRun(Futex(m, run[0]).0, run[1..])
  }

  ghost function WokenBy(m: Queues, run: seq<Call>, w: Waiter): nat
    decreases |run|
  {
    if run == [] then 0 else Occurs(Futex(m, run[0]).2, w) + WokenBy(Futex(m, run[0]).0, run[1..], w)
  }

  /** The waiter that a call enters, if it blocks. */
  ghost function Entered(m: Queues, c: Call): seq<Waiter> {
    if Futex(m, c).1 == Blocks then [Waiter(c.tid, if c.op == FutexWait then MATCH_ANY else c.val3, Deadline(c))]
      else []
  }

  ghost function EnteredBy(m: Queues, run: seq<Call>, w: Waiter): nat
    decreases |run|
  {
    if run == [] then 0 else Occurs(Entered(m, run[0]), w) + EnteredBy(Futex(m, run[0]).0, run[1..], w)
  }

  lemma {:induction false} CallConserves(m: Queues, c: Call, n: nat, w: Waiter)
    requires c.uaddr < n && c.uaddr2 < n && !Loses(m, c)
    ensures var (m', r, woken) := Futex(m, c);
      Waiting(m, n, w) + Occurs(Entered(m, c), w) == Occurs(woken, w) + Waiting(m', n, w)
  {
    match c.op
    case FutexWait =>
      WaitConserves(m, c, Waiter(c.tid, MATCH_ANY, Deadline(c)), n, w);
    case FutexWaitBitset =>
      WaitConserves(m, c, Waiter(c.tid, c.val3, Deadline(c)), n, w);
    case FutexWake =>
      WakeConserves(m, c.uaddr, c.val, MATCH_ANY, n, w);
    case FutexWakeBitset =>
      WakeConserves(m, c.uaddr, c.val, c.val3, n, w);
    case FutexRequeue =>
      RequeueCallConserves(m, c, n, w);
    case FutexCmpRequeuePi =>
      if c.uValue == Some(c.val3) {
        RequeueCallConserves(m, c, n, w);
      }
    case Other =>
    case Unknown =>
  }

  lemma WaitConserves(m: Queues, c: Call, waiter: Waiter, n: nat, w: Waiter)
    requires c.uaddr < n
    ensures var (m', r, woken) := WaitCall(m, c, waiter);
      woken == [] && Waiting(m, n, w) + (if r == Blocks then Occurs([waiter], w) else 0) == Waiting(m', n, w)
  {
    AddConserves(m, c.uaddr, waiter, n, w);
  }

  lemma RequeueCallConserves(m: Queues, c: Call, n: nat, w: Waiter)
    requires c.uaddr < n && c.uaddr2 < n
    requires !Overwrites(AfterWake(m, c.uaddr, c.val, MATCH_ANY), c.uaddr2, c.val2, c.uaddr)
    ensures var (m', r, woken) := RequeueCall(m, c);
      Waiting(m, n, w) == Occurs(woken, w) + Waiting(m', n, w)
  {
    WakeConserves(m, c.uaddr, c.val, MATCH_ANY, n, w);
    RequeueConserves(AfterWake(m, c.uaddr, c.val, MATCH_ANY), c.uaddr2, c.val2, c.uaddr, n, w);
  }

  /** A call that loses waiters adds none. */
  lemma LosingCall(m: Queues, c: Call, n: nat, w: Waiter)
    requires c.uaddr < n && c.uaddr2 < n && Loses(m, c)
    ensures var (m', r, woken) := Futex(m, c);
      Entered(m, c) == [] && Waiting(m, n, w) >= Occurs(woken, w) + Waiting(m', n, w)
  {
    assert Futex(m, c) == RequeueCall(m, c);
    WakeConserves(m, c.uaddr, c.val, MATCH_ANY, n, w);
    RequeueNeverAdds(AfterWake(m, c.uaddr, c.val, MATCH_ANY), c.uaddr2, c.val2, c.uaddr, n, w);
  }

  lemma SomeoneLost(m: Queues, c: Call, n: nat) returns (w: Waiter)
    requires c.uaddr < n && c.uaddr2 < n && Loses(m, c)
    ensures var (m', r, woken) := Futex(m, c);
      Waiting(m, n, w) > Occurs(woken, w) + Waiting(m', n, w)
  {
    w := SomeoneOverwritten(AfterWake(m, c.uaddr, c.val, MATCH_ANY), c.uaddr2, c.val2, c.uaddr, n);
    WakeConserves(m, c.uaddr, c.val, MATCH_ANY, n, w);
  }

  /** How often `w` was there or came over a run, but was neither woken nor is waiting. */
  ghost function Missing(m: Queues, run: seq<Call>, n: nat, w: Waiter): int {
    Waiting(m, n, w) + EnteredBy(m, run, w) - WokenBy(m, run, w) - Waiting(AfterRun(m, run), n, w)
  }

  lemma {:induction false} NeverTooMany(m: Queues, run: seq<Call>, n: nat, w: Waiter)
    requires InRange(n, run)
    ensures Missing(m, run, n, w) >= 0
    decreases |run|
  {
    if run != [] {
      if Loses(m, run[0]) {
        LosingCall(m, run[0], n, w);
      } else {
        CallConserves(m, run[0], n, w);
      }
      NeverTooMany(Futex(m, run[0]).0, run[1..], n, w);
    }
  }

  /** Over a run every waiter that was there or came was either woken or is still waiting, as
      often as it came, exactly if no call moved part of a queue onto itself. */
  lemma {:induction false} RunConservesIff(m: Queues, run: seq<Call>, n: nat)
    requires InRange(n, run)
    ensures (forall w :: Missing(m, run, n, w) == 0) <==> !LosesAny(m, run)
    decreases |run|
  {
    if run != [] {
      var m' := Futex(m, run[0]).0;
      if Loses(m, run[0]) {
        var w := SomeoneLost(m, run[0], n);
        LosingCall(m, run[0], n, w);
        NeverTooMany(m', run[1..], n, w);
        assert Missing(m, run, n, w) > 0;
      } else {
        RunConservesIff(m', run[1..], n);
        forall w ensures Missing(m, run, n, w) == Missing(m', run[1..], n, w) {
          CallConserves(m, run[0], n, w);
        }
      }
    }
  }
}
