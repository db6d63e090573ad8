/** The two schedulers and the run queue they share through the storage
    (common/fifo_scheduler, scheduler.rs; common/random_scheduler, lib.rs). */
module Schedulers {
  import opened Bytes

  type i8 = x: int | -128 <= x < 128

  const I8_MAX: i8 := 127

  /** A task: its nice value and the CPUs it may run on. */
  datatype Task = Task(tid: nat, nice: i8, cpus: set<nat>)

  // ---------------------------------------------------------------- picking a task

  /** The index of the first task for `cpu`, or the length of the queue. */
  function First(q: seq<Task>, cpu: nat): (i: nat)
    ensures i <= |q|
    ensures i < |q| ==> cpu in q[i].cpus
    ensures forall j :: 0 <= j < i ==> cpu !in q[j].cpus
  {
    if q == [] || cpu in q[0].cpus then 0 else First(q[1..], cpu) + 1
  }

  /** A task is ready on `cpu` if it may run there and is not of the highest nice value
      there is. */
  predicate Ready(t: Task, cpu: nat) {
    cpu in t.cpus && t.nice < I8_MAX
  }

  /** `i` is the earliest of the least nice tasks that are ready on `cpu`. */
  ghost predicate LeastNice(q: seq<Task>, cpu: nat, i: nat) {
    && i < |q| && Ready(q[i], cpu)
    && (forall j :: 0 <= j < |q| && Ready(q[j], cpu) ==> q[i].nice <= q[j].nice)
    && (forall j :: 0 <= j < i && Ready(q[j], cpu) ==> q[i].nice < q[j].nice)
  }

  /** The last index up to `n` at which a scan finds a smaller nice value than before,
      or the length of the queue. */
  function Scan(q: seq<Task>, cpu: nat, n: nat): (i: nat)
    requires n <= |q|
    ensures
      if i < |q| then i < n && LeastNice(q[..n], cpu, i)
      else i == |q| && forall j :: 0 <= j < n ==> !Ready(q[j], cpu)
  {
    if n == 0 then |q|
    else
      var i := Scan(q, cpu, n - 1);
      if cpu in q[n - 1].cpus && q[n - 1].nice < (if i < |q| then q[i].nice else I8_MAX) then n - 1 else i
  }

  datatype Policy = Fifo | Priority

  /** The index of the task a policy picks, or the length of the queue. */
  function Pick(policy: Policy, q: seq<Task>, cpu: nat): (i: nat)
    ensures i <= |q|
  {
    if policy == Fifo then First(q, cpu) else Scan(q, cpu, |q|)
  }

  function Without(q: seq<Task>, i: nat): seq<Task>
    requires i < |q|
  {
    q[..i] + q[i + 1..]
  }

  function Fetched(policy: Policy, q: seq<Task>, cpu: nat): (seq<Task>, Option<Task>) {
    var i := Pick(policy, q, cpu);
    if i < |q| then (Without(q, i), Some(q[i])) else (q, None)
  }

  // ---------------------------------------------------------------- the schedulers

  /** The queue, which lives in the storage and outlives a scheduler. */
  class TaskList {
    var tasks: seq<Task>

    constructor ()
      ensures tasks == []
    {
      tasks := [];
    }
  }

  class CustomFiFoScheduler {
    const list: TaskList

    /** Takes the list over from the storage. */
    constructor (list: TaskList)
      ensures this.list == list
    {
      this.list := list;
    }

    method AddTask(task: Task)
      modifies list
      ensures list.tasks == old(list.tasks) + [task]
    {
      list.tasks := list.tasks + [task];
    }

    method FetchTask(cpu: nat) returns (r: Option<Task>)
      modifies list
      ensures (list.tasks, r) == Fetched(Fifo, old(list.tasks), cpu)
    {
      var index := 0;
      while index < |list.tasks| && cpu !in list.tasks[index].cpus
        invariant index <= First(list.tasks, cpu)
      {
        index := index + 1;
      }
      if index < |list.tasks| {
        r := Some(list.tasks[index]);
        list.tasks := list.tasks[..index] + list.tasks[index + 1..];
      } else {
        r := None;
      }
    }
  }

  class RandomScheduler {
    const list: TaskList

    constructor (list: TaskList)
      ensures this.list == list
    {
      this.list := list;
    }

    method AddTask(task: Task)
      modifies list
      ensures list.tasks == old(list.tasks) + [task]
    {
      list.tasks := list.tasks + [task];
    }

    method FetchTask(cpu: nat) returns (r: Option<Task>)
      modifies list
      ensures (list.tasks, r) == Fetched(Priority, old(list.tasks), cpu)
    {
      var maxNice := I8_MAX;
      var index: Option<nat> := None;
      for i := 0 to |list.tasks|
        invariant var s := Scan(list.tasks, cpu, i);
          if s < |list.tasks| then index == Some(s) && maxNice == list.tasks[s].nice
          else index == None && maxNice == I8_MAX
      {
        if cpu in list.tasks[i].cpus && list.tasks[i].nice < maxNice {
          maxNice := list.tasks[i].nice;
          index := Some(i);
        }
      }
      match index
      case Some(i) =>
        r := Some(list.tasks[i]);
        list.tasks := list.tasks[..i] + list.tasks[i + 1..];
      case None =>
        r := None;
    }
  }

  // ---------------------------------------------------------------- one fetch

  /** The priority scheduler picks the earliest of the least nice ready tasks. */
  lemma PriorityPicksLeastNice(q: seq<Task>, cpu: nat, i: nat)
    requires i < |q|
    ensures Pick(Priority, q, cpu) == i <==> LeastNice(q, cpu, i)
  {
    var k := Scan(q, cpu, |q|);
    assert q[..|q|] == q;
  }

  /** It picks nobody exactly if every task that may run on the CPU has the highest nice
      value. */
  lemma PriorityPicksNobodyIff(q: seq<Task>, cpu: nat)
    ensures Pick(Priority, q, cpu) == |q| <==> forall j :: 0 <= j < |q| && cpu in q[j].cpus ==> q[j].nice == I8_MAX
  {
    assert q[..|q|] == q;
    if Scan(q, cpu, |q|) == |q| {
      forall j | 0 <= j < |q| && cpu in q[j].cpus ensures q[j].nice == I8_MAX {
        assert !Ready(q[j], cpu);
      }
    }
  }

  /** The highest nice value that a task can have. */
  const NICE_MAX: i8 := 19

  /** So with the nice values there are, it picks exactly when the other scheduler does. */
  lemma {:induction false} PriorityPicksWhenFifoDoes(q: seq<Task>, cpu: nat)
    requires forall j :: 0 <= j < |q| ==> q[j].nice <= NICE_MAX
    ensures Pick(Priority, q, cpu) < |q| <==> Pick(Fifo, q, cpu) < |q|
  {
    PriorityPicksNobodyIff(q, cpu);
    var i := First(q, cpu);
    if i < |q| {
      assert q[i].nice != I8_MAX;
    }
  }

  // ---------------------------------------------------------------- runs

  datatype State = State(policy: Policy, queue: seq<Task>)

  /** A task is queued, a CPU fetches one, or the scheduler is replaced and the new one
      takes the queue over. */
  datatype Op = Add(task: Task) | Fetch(cpu: nat) | Replace(policy: Policy)

  function Step(s: State, op: Op): State {
    match op
    case Add(task) => s.(queue := s.queue + [task])
    case Fetch(cpu) => s.(queue := Fetched(s.policy, s.queue, cpu).0)
    case Replace(policy) => s.(policy := policy)
  }

  function After(s: State, run: seq<Op>): State
    decreases |run|
  {
    if run == [] then s else After(Step(s, run[0]), run[1..])
  }

  function Added(run: seq<Op>): seq<Task> {
    if run == [] then [] else (if run[0].Add? then [run[0].task] else []) + Added(run[1..])
  }

  function FetchedBy(s: State, op: Op): seq<Task> {
    if op.Fetch? && Fetched(s.policy, s.queue, op.cpu).1.Some? then [Fetched(s.policy, s.queue, op.cpu).1.value] else []
  }

  function FetchedIn(s: State, run: seq<Op>): seq<Task>
    decreases |run|
  {
    if run == [] then [] else FetchedBy(s, run[0]) + FetchedIn(Step(s, run[0]), run[1..])
  }

  lemma StepConserves(s: State, op: Op)
    ensures multiset(s.queue) + multiset(if op.Add? then [op.task] else []) ==
      multiset(Step(s, op).queue) + multiset(FetchedBy(s, op))
  {
    if op.Fetch? {
      var q, i := s.queue, Pick(s.policy, s.queue, op.cpu);
      if i < |q| {
        assert q == q[..i] + [q[i]] + q[i + 1..];
      }
    }
  }

  /** Over any run, replacements included, the tasks queued at first and added are the
      tasks fetched and those still queued. */
  lemma {:induction false} RunConserves(s: State, run: seq<Op>)
    ensures multiset(s.queue) + multiset(Added(run)) == multiset(After(s, run).queue) + multiset(FetchedIn(s, run))
    decreases |run|
  {
    if run != [] {
      var s', rest := Step(s, run[0]), run[1..];
      var added := if run[0].Add? then [run[0].task] else [];
      StepConserves(s, run[0]);
      RunConserves(s', rest);
      JoinConserves(s.queue, added, s'.queue, FetchedBy(s, run[0]), Added(rest), After(s', rest).queue,
        FetchedIn(s', rest));
    }
  }

  lemma JoinConserves(q: seq<Task>, a: seq<Task>, q1: seq<Task>, f: seq<Task>, a1: seq<Task>, q2: seq<Task>,
                      f1: seq<Task>)
    requires multiset(q) + multiset(a) == multiset(q1) + multiset(f)
    requires multiset(q1) + multiset(a1) == multiset(q2) + multiset(f1)
    ensures multiset(q) + multiset(a + a1) == multiset(q2) + multiset(f + f1)
  {
    assert multiset(a + a1) == multiset(a) + multiset(a1) && multiset(f + f1) == multiset(f) + multiset(f1);
    forall t ensures (multiset(q) + multiset(a + a1))[t] == (multiset(q2) + multiset(f + f1))[t] {
      assert (multiset(q) + multiset(a))[t] == (multiset(q1) + multiset(f))[t];
      assert (multiset(q1) + multiset(a1))[t] == (multiset(q2) + multiset(f1))[t];
    }
  }

  /** Where the task at index `i` is after a step, unless it was fetched. */
  function Moved(s: State, i: nat, op: Op): Option<nat>
    requires i < |s.queue|
  {
    if !op.Fetch? then Some(i)
    else
      var k := Pick(s.policy, s.queue, op.cpu);
      if k == i then None else if k < i then Some(i - 1) else Some(i)
  }

  lemma MovedIsThere(s: State, i: nat, op: Op)
    requires i < |s.queue|
    ensures var j := Moved(s, i, op);
      if j.Some? then j.value < |Step(s, op).queue| && Step(s, op).queue[j.value] == s.queue[i]
      else FetchedBy(s, op) == [s.queue[i]]
  {
  }

  /** Where the task at index `i` is after a run, unless it was fetched. */
  function Follow(s: State, i: nat, run: seq<Op>): Option<nat>
    requires i < |s.queue|
    decreases |run|
  {
    if run == [] then Some(i)
    else
      var j := Moved(s, i, run[0]);
      MovedIsThere(s, i, run[0]);
      if j.None? then None else Follow(Step(s, run[0]), j.value, run[1..])
  }

  /** Tasks that are still queued are in the order in which they came, under either
      scheduler and across replacements. */
  lemma {:induction false} OrderKept(s: State, i: nat, j: nat, run: seq<Op>)
    requires i < j < |s.queue|
    ensures Follow(s, i, run).Some? && Follow(s, j, run).Some? ==> Follow(s, i, run).value < Follow(s, j, run).value
    decreases |run|
  {
    if run != [] {
      var op := run[0];
      MovedIsThere(s, i, op);
      MovedIsThere(s, j, op);
      if Moved(s, i, op).Some? && Moved(s, j, op).Some? {
        OrderKept(Step(s, op), Moved(s, i, op).value, Moved(s, j, op).value, run[1..]);
      }
    }
  }

  /** Two tasks with the same nice value and the same CPUs never overtake each other,
      whatever is fetched and however often the scheduler is replaced: the earlier one is
      fetched first. */
  lemma {:induction false} NeverOvertakes(s: State, i: nat, j: nat, run: seq<Op>)
    requires i < j < |s.queue| && s.queue[i].nice == s.queue[j].nice && s.queue[i].cpus == s.queue[j].cpus
    ensures Follow(s, j, run).None? ==> Follow(s, i, run).None?
    ensures Follow(s, i, run).Some? ==> Follow(s, i, run).value < Follow(s, j, run).value
    decreases |run|
  {
    if run != [] {
      var op := run[0];
      MovedIsThere(s, i, op);
      MovedIsThere(s, j, op);
      EarlierPicked(s, i, j, op);
      if Moved(s, i, op).Some? {
        NeverOvertakes(Step(s, op), Moved(s, i, op).value, Moved(s, j, op).value, run[1..]);
      }
    }
  }

  lemma EarlierPicked(s: State, i: nat, j: nat, op: Op)
    requires i < j < |s.queue| && s.queue[i].nice == s.queue[j].nice && s.queue[i].cpus == s.queue[j].cpus
    ensures Moved(s, j, op).Some?
    ensures Moved(s, i, op).Some? ==> Moved(s, i, op).value < Moved(s, j, op).value
  {
    if op.Fetch? && s.policy == Priority {
      PriorityPicksLeastNice(s.queue, op.cpu, j);
      assert Ready(s.queue[i], op.cpu) <==> Ready(s.queue[j], op.cpu);
    }
  }

  // ---------------------------------------------------------------- bounded waiting

  /** How many tasks of `q` may run on `cpu`. */
  function Eligible(q: seq<Task>, cpu: nat): nat {
    if q == [] then 0 else (if cpu in q[0].cpus then 1 else 0) + Eligible(q[1..], cpu)
  }

  function Fetches(run: seq<Op>, cpu: nat): nat {
    if run == [] then 0 else (if run[0] == Fetch(cpu) then 1 else 0) + Fetches(run[1..], cpu)
  }

  predicate NoReplace(run: seq<Op>) {
    forall i :: 0 <= i < |run| ==> !run[i].Replace?
  }

  lemma {:induction false} EligibleWithout(q: seq<Task>, i: nat, cpu: nat)
    requires i < |q|
    ensures Eligible(q, cpu) == Eligible(Without(q, i), cpu) + (if cpu in q[i].cpus then 1 else 0)
  {
    if i > 0 {
      EligibleWithout(q[1..], i - 1, cpu);
      assert Without(q, i) == [q[0]] + Without(q[1..], i - 1);
    } else {
      assert Without(q, 0) == q[1..];
    }
  }

  /** Bounded waiting: a task that may run on a CPU and has `k` such tasks ahead of it is
      fetched, by this CPU or another, before this CPU has fetched more than `k` times,
      whatever is added and fetched meanwhile. */
  lemma {:induction false} BoundedWaiting(s: State, i: nat, cpu: nat, run: seq<Op>)
    requires s.policy == Fifo && NoReplace(run)
    requires i < |s.queue| && cpu in s.queue[i].cpus
    requires Fetches(run, cpu) > Eligible(s.queue[..i], cpu)
    ensures Follow(s, i, run).None?
    decreases |run|
  {
    var op := run[0];
    MovedIsThere(s, i, op);
    AheadShrinks(s, i, cpu, op);
    if Moved(s, i, op).Some? {
      BoundedWaiting(Step(s, op), Moved(s, i, op).value, cpu, run[1..]);
    }
  }

  /** A step never puts anyone ahead of a queued task, and a fetch by its CPU takes one of
      those ahead, or the task itself. */
  lemma AheadShrinks(s: State, i: nat, cpu: nat, op: Op)
    requires s.policy == Fifo && !op.Replace? && i < |s.queue| && cpu in s.queue[i].cpus
    ensures Moved(s, i, op).Some? ==> Moved(s, i, op).value <= |Step(s, op).queue|
    ensures var j := Moved(s, i, op);
      j.Some? ==>
        Eligible(Step(s, op).queue[..j.value], cpu) + (if op == Fetch(cpu) then 1 else 0) <= Eligible(s.queue[..i], cpu)
  {
    var q, q' := s.queue, Step(s, op).queue;
    if op.Fetch? {
      var k := First(q, op.cpu);
      if k < i {
        assert q'[..i - 1] == Without(q[..i], k);
        EligibleWithout(q[..i], k, cpu);
      } else if k > i {
        assert q'[..i] == q[..i];
      }
    } else {
      assert q'[..i] == q[..i];
    }
  }

  function Repeat(op: Op, n: nat): seq<Op> {
    if n == 0 then [] else [op] + Repeat(op, n - 1)
  }

  lemma FollowRepeat(s: State, i: nat, cpu: nat, n: nat)
    requires i < |s.queue| && n > 0
    ensures var j := Moved(s, i, Fetch(cpu));
      && (j.Some? ==> j.value < |Step(s, Fetch(cpu)).queue|)
      && Follow(s, i, Repeat(Fetch(cpu), n)) ==
           if j.None? then None else Follow(Step(s, Fetch(cpu)), j.value, Repeat(Fetch(cpu), n - 1))
  {
    assert Repeat(Fetch(cpu), n)[1..] == Repeat(Fetch(cpu), n - 1);
    MovedIsThere(s, i, Fetch(cpu));
  }

  /** The bound is exact: when only this CPU fetches, `n` fetches reach the task just if
      more than the tasks ahead of it. */
  lemma {:induction false} WaitingIsExact(s: State, i: nat, cpu: nat, n: nat)
    requires s.policy == Fifo && i < |s.queue| && cpu in s.queue[i].cpus
    ensures Follow(s, i, Repeat(Fetch(cpu), n)).None? <==> n > Eligible(s.queue[..i], cpu)
    decreases n
  {
    if n > 0 {
      FollowRepeat(s, i, cpu, n);
      MovedIsThere(s, i, Fetch(cpu));
      OneFetch(s, i, cpu);
      var j := Moved(s, i, Fetch(cpu));
      if j.Some? {
        WaitingIsExact(Step(s, Fetch(cpu)), j.value, cpu, n - 1);
      }
    }
  }

  /** A fetch takes one of the tasks ahead, or the task itself if none is ahead. */
  lemma OneFetch(s: State, i: nat, cpu: nat)
    requires s.policy == Fifo && i < |s.queue| && cpu in s.queue[i].cpus
    ensures var j := Moved(s, i, Fetch(cpu));
      if j.None? then Eligible(s.queue[..i], cpu) == 0
      else
        && j.value < |Step(s, Fetch(cpu)).queue|
        && Eligible(s.queue[..i], cpu) == Eligible(Step(s, Fetch(cpu)).queue[..j.value], cpu) + 1
  {
    var q, k := s.queue, First(s.queue, cpu);
    if k < i {
      assert Step(s, Fetch(cpu)).queue[..i - 1] == Without(q[..i], k);
      EligibleWithout(q[..i], k, cpu);
    } else {
      NobodyEligible(q[..i], cpu);
    }
  }

  lemma {:induction false} NobodyEligible(q: seq<Task>, cpu: nat)
    requires forall j :: 0 <= j < |q| ==> cpu !in q[j].cpus
    ensures Eligible(q, cpu) == 0
  {
    if q != [] {
      NobodyEligible(q[1..], cpu);
    }
  }

  // ---------------------------------------------------------------- waiting under priorities

  /** How many tasks of `q` are ready on `cpu` with a nice value up to `nice`. */
  function ReadyUpTo(q: seq<Task>, cpu: nat, nice: int): nat {
    if q == [] then 0 else (if Ready(q[0], cpu) && q[0].nice <= nice then 1 else 0) + ReadyUpTo(q[1..], cpu, nice)
  }

  /** How many queued tasks `cpu` takes before the one at index `i`: those less nice, and
      those as nice that came earlier. */
  function Rivals(q: seq<Task>, i: nat, cpu: nat): nat
    requires i < |q|
  {
    ReadyUpTo(q[..i], cpu, q[i].nice) + ReadyUpTo(q[i + 1..], cpu, q[i].nice - 1)
  }

  /** How many of the tasks are ready on `cpu` and less nice than `nice`. */
  function Urgent(tasks: seq<Task>, cpu: nat, nice: i8): nat {
    ReadyUpTo(tasks, cpu, nice - 1)
  }

  lemma {:induction false} ReadyWithout(q: seq<Task>, k: nat, cpu: nat, nice: int)
    requires k < |q|
    ensures ReadyUpTo(q, cpu, nice) ==
      ReadyUpTo(Without(q, k), cpu, nice) + (if Ready(q[k], cpu) && q[k].nice <= nice then 1 else 0)
  {
    if k > 0 {
      ReadyWithout(q[1..], k - 1, cpu, nice);
      assert Without(q, k) == [q[0]] + Without(q[1..], k - 1);
    } else {
      assert Without(q, 0) == q[1..];
    }
  }

  lemma {:induction false} ReadyConcat(q: seq<Task>, r: seq<Task>, cpu: nat, nice: int)
    ensures ReadyUpTo(q + r, cpu, nice) == ReadyUpTo(q, cpu, nice) + ReadyUpTo(r, cpu, nice)
    decreases |q|
  {
    if q == [] {
      assert q + r == r;
    } else {
      assert (q + r)[1..] == q[1..] + r;
      ReadyConcat(q[1..], r, cpu, nice);
    }
  }

  lemma {:induction false} NobodyReady(q: seq<Task>, cpu: nat, nice: int)
    requires forall j :: 0 <= j < |q| ==> !(Ready(q[j], cpu) && q[j].nice <= nice)
    ensures ReadyUpTo(q, cpu, nice) == 0
  {
    if q != [] {
      NobodyReady(q[1..], cpu, nice);
    }
  }

  lemma WithoutAhead(q: seq<Task>, i: nat, k: nat)
    requires k < i < |q|
    ensures Without(q, k)[..i - 1] == Without(q[..i], k) && Without(q, k)[i..] == q[i + 1..] &&
      Without(q, k)[i - 1] == q[i]
  {
  }

  lemma WithoutBehind(q: seq<Task>, i: nat, k: nat)
    requires i < k < |q|
    ensures Without(q, k)[..i] == q[..i] && Without(q, k)[i + 1..] == Without(q[i + 1..], k - i - 1) &&
      Without(q, k)[i] == q[i]
  {
    var l, r := Without(q, k)[i + 1..], Without(q[i + 1..], k - i - 1);
    assert |l| == |r|;
    forall j | 0 <= j < |l| ensures l[j] == r[j] {
      assert l[j] == q[if i + 1 + j < k then i + 1 + j else i + 2 + j];
    }
  }

  /** Taking out the task at `k` leaves one rival less if it was one. */
  lemma RivalsWithout(q: seq<Task>, i: nat, k: nat, cpu: nat)
    requires i < |q| && k < |q| && k != i
    ensures var i' := if k < i then i - 1 else i;
      && i' < |Without(q, k)| && Without(q, k)[i'] == q[i]
      && Rivals(q, i, cpu) == Rivals(Without(q, k), i', cpu)
          + (if Ready(q[k], cpu) && (q[k].nice < q[i].nice || (q[k].nice == q[i].nice && k < i)) then 1 else 0)
  {
    if k < i {
      WithoutAhead(q, i, k);
      ReadyWithout(q[..i], k, cpu, q[i].nice);
    } else {
      WithoutBehind(q, i, k);
      ReadyWithout(q[i + 1..], k - i - 1, cpu, q[i].nice - 1);
    }
  }

  lemma RivalsAdded(q: seq<Task>, i: nat, more: seq<Task>, cpu: nat)
    requires i < |q|
    ensures Rivals(q + more, i, cpu) == Rivals(q, i, cpu) + Urgent(more, cpu, q[i].nice)
  {
    assert (q + more)[..i] == q[..i] && (q + more)[i + 1..] == q[i + 1..] + more;
    ReadyConcat(q[i + 1..], more, cpu, q[i].nice - 1);
  }

  /** A fetch by the CPU takes a rival, or the task itself if it has none. */
  lemma {:induction false} FetchTakesRival(q: seq<Task>, i: nat, cpu: nat)
    requires i < |q| && Ready(q[i], cpu)
    ensures var k := Pick(Priority, q, cpu);
      && k < |q|
      && (k == i <==> Rivals(q, i, cpu) == 0)
      && (k != i ==> Ready(q[k], cpu) && (q[k].nice < q[i].nice || (q[k].nice == q[i].nice && k < i)))
  {
    var k := Pick(Priority, q, cpu);
    assert q[..|q|] == q;
    PriorityPicksLeastNice(q, cpu, k);
    if k == i {
      NobodyReady(q[..i], cpu, q[i].nice);
      NobodyReady(q[i + 1..], cpu, q[i].nice - 1);
    } else {
      RivalsWithout(q, i, k, cpu);
    }
  }

  /** The rivals after a step, and whether one of them went. */
  lemma RivalsAfter(s: State, i: nat, cpu: nat, op: Op)
    requires s.policy == Priority && !op.Replace? && i < |s.queue| && Ready(s.queue[i], cpu)
    ensures Moved(s, i, op).Some? ==> Moved(s, i, op).value < |Step(s, op).queue|
    ensures Moved(s, i, op).Some? ==>
      Rivals(Step(s, op).queue, Moved(s, i, op).value, cpu) + (if op == Fetch(cpu) then 1 else 0)
      <= Rivals(s.queue, i, cpu) + (if op.Add? then Urgent([op.task], cpu, s.queue[i].nice) else 0)
  {
    MovedIsThere(s, i, op);
    if op.Add? {
      RivalsAdded(s.queue, i, [op.task], cpu);
    } else {
      FetchTakesRival(s.queue, i, cpu);
      var k := Pick(Priority, s.queue, op.cpu);
      if k < |s.queue| && k != i {
        RivalsWithout(s.queue, i, k, cpu);
      }
    }
  }

  /** Bounded waiting under priorities: a ready task is fetched, by this CPU or another,
      before this CPU has fetched more often than there are rivals in the queue and less
      nice tasks added meanwhile. */
  lemma {:induction false} PriorityWaiting(s: State, i: nat, cpu: nat, run: seq<Op>)
    requires s.policy == Priority && NoReplace(run)
    requires i < |s.queue| && Ready(s.queue[i], cpu)
    requires Fetches(run, cpu) > Rivals(s.queue, i, cpu) + Urgent(Added(run), cpu, s.queue[i].nice)
    ensures Follow(s, i, run).None?
    decreases |run|
  {
    var op := run[0];
    var nice: int := s.queue[i].nice;
    var added := if op.Add? then [op.task] else [];
    ReadyConcat(added, Added(run[1..]), cpu, nice - 1);
    MovedIsThere(s, i, op);
    RivalsAfter(s, i, cpu, op);
    if Moved(s, i, op).Some? {
      PriorityWaiting(Step(s, op), Moved(s, i, op).value, cpu, run[1..]);
    }
  }

  /** The bound is exact: after any tasks were added, `n` fetches reach the task just if
      there are more of them than rivals and less nice newcomers. */
  lemma {:induction false} PriorityWaitingIsExact(s: State, i: nat, cpu: nat, more: seq<Task>, n: nat)
    requires s.policy == Priority && i < |s.queue| && Ready(s.queue[i], cpu)
    ensures Follow(State(Priority, s.queue + more), i, Repeat(Fetch(cpu), n)).None?
       <==> n > Rivals(s.queue, i, cpu) + Urgent(more, cpu, s.queue[i].nice)
  {
    RivalsAdded(s.queue, i, more, cpu);
    FetchesReach(State(Priority, s.queue + more), i, cpu, n);
  }

  lemma {:induction false} FetchesReach(s: State, i: nat, cpu: nat, n: nat)
    requires s.policy == Priority && i < |s.queue| && Ready(s.queue[i], cpu)
    ensures Follow(s, i, Repeat(Fetch(cpu), n)).None? <==> n > Rivals(s.queue, i, cpu)
    decreases n
  {
    if n > 0 {
      FollowRepeat(s, i, cpu, n);
      FetchTakesRival(s.queue, i, cpu);
      MovedIsThere(s, i, Fetch(cpu));
      var k := Pick(Priority, s.queue, cpu);
      if k == i {
        assert Moved(s, i, Fetch(cpu)) == None;
      } else {
        RivalsWithout(s.queue, i, k, cpu);
        assert Moved(s, i, Fetch(cpu)) == Some(if k < i then i - 1 else i);
        FetchesReach(Step(s, Fetch(cpu)), if k < i then i - 1 else i, cpu, n - 1);
      }
    }
  }

  /** A run that adds an urgent task before every fetch. */
  function Flood(urgent: Task, cpu: nat, n: nat): seq<Op> {
    if n == 0 then [] else [Add(urgent), Fetch(cpu)] + Flood(urgent, cpu, n - 1)
  }

  /** So nothing but the newcomers limits the wait: a task waits through any number of
      fetches as long as less nice ones keep coming. */
  lemma {:induction false} PriorityStarves(t: Task, urgent: Task, cpu: nat, n: nat)
    requires cpu in urgent.cpus && urgent.nice < t.nice
    ensures Follow(State(Priority, [t]), 0, Flood(urgent, cpu, n)) == Some(0)
    ensures Fetches(Flood(urgent, cpu, n), cpu) == n
  {
    if n > 0 {
      var s, run := State(Priority, [t]), Flood(urgent, cpu, n);
      var s1 := Step(s, Add(urgent));
      assert run[1..] == [Fetch(cpu)] + Flood(urgent, cpu, n - 1) && run[1..][1..] == Flood(urgent, cpu, n - 1);
      PriorityPicksLeastNice(s1.queue, cpu, 1);
      assert s1.queue == [t, urgent] && Step(s1, Fetch(cpu)) == s;
      PriorityStarves(t, urgent, cpu, n - 1);
    }
  }
}
