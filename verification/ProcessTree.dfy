/** The tree of processes (common/task/task): fork-style clone, exit with
    reparenting to init, and wait4.

    A task is named by the number of tasks made before it, which plays the part of
    the object's identity; its tid is a field and may be used again. */
module ProcessTree {
  import opened Bytes

  const INIT_TID: nat := 1

  /** The first task made. */
  const INIT: Id := 0

  type Id = nat

  datatype Status = Ready | Zombie | Terminated

  datatype Task = Task(tid: nat, status: Status, parent: Option<Id>, children: map<nat, Id>, exitCode: int)

  /** The wait status made of an exit code: its low byte, shifted up by eight. Who takes
      it apart finds that byte, and no signal. */
  function ExitStatus(code: int): (r: int)
    ensures 0 <= r < 0x1_0000 && r / 0x100 == code % 0x100 && r % 0x100 == 0
  {
    code % 0x100 * 0x100
  }

  /** The tasks made and not reaped, the allocated tids and who holds them, the running
      tasks by tid, the number of tasks ever made, the codes given to exit, and the
      statuses handed out by wait. */
  datatype World = World(tasks: map<Id, Task>, tids: map<nat, Id>, manager: map<nat, Id>, made: nat,
                         codes: map<Id, int>, reaped: map<Id, int>)

  // ---------------------------------------------------------------- what every run keeps

  /** `t` hangs under an older unreaped task, the one its parent field names. */
  ghost predicate Hangs(tasks: map<Id, Task>, t: Id)
    requires t in tasks
  {
    && tasks[t].parent.Some? && tasks[t].parent.value in tasks && tasks[t].parent.value < t
    && tasks[t].tid in tasks[tasks[t].parent.value].children
    && tasks[tasks[t].parent.value].children[tasks[t].tid] == t
  }

  /** The children of `p` are unreaped, are kept under their own tids, and name `p`
      their parent. */
  ghost predicate Owns(tasks: map<Id, Task>, p: Id)
    requires p in tasks
  {
    forall k :: k in tasks[p].children ==>
      var c := tasks[p].children[k];
      c in tasks && tasks[c].tid == k && tasks[c].parent == Some(p)
  }

  ghost predicate TreeOk(tasks: map<Id, Task>, tids: map<nat, Id>) {
    && INIT in tasks && tasks[INIT].parent == None && tasks[INIT].tid == INIT_TID && tasks[INIT].status == Ready
    && (forall t {:trigger Hangs(tasks, t)} :: t in tasks && t != INIT ==> Hangs(tasks, t))
    && (forall p {:trigger Owns(tasks, p)} :: p in tasks ==> Owns(tasks, p))
    && (forall t {:trigger tasks[t].tid} :: t in tasks ==> tasks[t].tid in tids && tids[tasks[t].tid] == t)
    && (forall k :: k in tids ==> tids[k] in tasks && tasks[tids[k]].tid == k)
  }

  /** A terminated task has no children, shows the status of its code, and is not
      managed; a task that has not exited is. */
  ghost predicate StatusOk(w: World, t: Id)
    requires t in w.tasks
  {
    if w.tasks[t].status == Terminated then
      && w.tasks[t].children == map[] && t in w.codes && w.tasks[t].exitCode == ExitStatus(w.codes[t])
      && w.tasks[t].tid !in w.manager
    else
      && t !in w.codes && w.tasks[t].tid in w.manager && w.manager[w.tasks[t].tid] == t
  }

  ghost predicate Valid(w: World) {
    && TreeOk(w.tasks, w.tids)
    && (forall t :: t in w.tasks ==> t < w.made)
    && (forall t {:trigger StatusOk(w, t)} :: t in w.tasks ==> StatusOk(w, t))
    && (forall k :: k in w.manager ==> w.manager[k] in w.tasks && w.tasks[w.manager[k]].tid == k)
    && (forall t :: t in w.codes ==> t < w.made)
    && (forall t :: t in w.reaped ==> t !in w.tasks && t in w.codes && w.reaped[t] == ExitStatus(w.codes[t]))
  }

  /** Every task but init is in exactly one children map: that of its parent, which is
      older and unreaped. */
  lemma OneParent(tasks: map<Id, Task>, tids: map<nat, Id>, t: Id)
    requires TreeOk(tasks, tids) && t in tasks && t != INIT
    ensures exists p :: p in tasks && p < t && tasks[t].tid in tasks[p].children && tasks[p].children[tasks[t].tid] == t
    ensures forall p, k :: p in tasks && k in tasks[p].children ==>
      (tasks[p].children[k] == t <==> tasks[t].parent == Some(p) && k == tasks[t].tid)
  {
    assert Hangs(tasks, t);
    forall p, k | p in tasks && k in tasks[p].children
      ensures tasks[p].children[k] == t <==> tasks[t].parent == Some(p) && k == tasks[t].tid
    {
      assert Owns(tasks, p);
    }
  }

  /** The task `n` steps up the parent chain. */
  ghost function Ancestor(tasks: map<Id, Task>, tids: map<nat, Id>, t: Id, n: nat): (a: Id)
    requires TreeOk(tasks, tids) && t in tasks
    ensures a in tasks
  {
    if n == 0 || t == INIT then t
    else assert Hangs(tasks, t); Ancestor(tasks, tids, tasks[t].parent.value, n - 1)
  }

  /** Parent chains do not loop: each ends at init, in no more steps than tasks were
      made before its start. */
  lemma {:induction false} ChainsEndAtInit(tasks: map<Id, Task>, tids: map<nat, Id>, t: Id, n: nat)
    requires TreeOk(tasks, tids) && t in tasks && t <= n
    ensures Ancestor(tasks, tids, t, n) == INIT
    ensures forall k :: 0 < k <= n && t != INIT ==> Ancestor(tasks, tids, t, k) < t
    decreases n
  {
    if t != INIT {
      assert Hangs(tasks, t);
      var p := tasks[t].parent.value;
      ChainsEndAtInit(tasks, tids, p, n - 1);
      forall k | 0 < k <= n
        ensures Ancestor(tasks, tids, t, k) < t
      {
        assert Ancestor(tasks, tids, t, k) == Ancestor(tasks, tids, p, k - 1);
        if k > 1 && p != INIT {
          assert Ancestor(tasks, tids, p, k - 1) < p;
        }
      }
    }
  }

  // ---------------------------------------------------------------- clone

  /** The tasks after a clone of `cur`: the new task `id` hangs under it. */
  function Grown(tasks: map<Id, Task>, cur: Id, tid: nat, id: Id): map<Id, Task>
    requires cur in tasks
  {
    tasks[cur := tasks[cur].(children := tasks[cur].children[tid := id])]
         [id := Task(tid, Ready, Some(cur), map[], 0)]
  }

  /** A clone of `cur` under the number `tid`. */
  function Cloned(w: World, cur: Id, tid: nat): World
    requires cur in w.tasks
  {
    w.(tasks := Grown(w.tasks, cur, tid, w.made), tids := w.tids[tid := w.made],
       manager := w.manager[tid := w.made], made := w.made + 1)
  }

  /** What a clone adds: one ready task without children, under the tid, with `cur` as its
      parent. */
  lemma ClonedFields(w: World, cur: Id, tid: nat)
    requires Valid(w) && cur in w.tasks && tid !in w.tids
    ensures var w' := Cloned(w, cur, tid);
      && w'.tasks.Keys == w.tasks.Keys + {w.made} && w'.made == w.made + 1
      && w'.tasks[w.made] == Task(tid, Ready, Some(cur), map[], 0)
      && w'.tasks[cur] == w.tasks[cur].(children := w.tasks[cur].children[tid := w.made])
      && (forall t :: t in w.tasks && t != cur ==> w'.tasks[t] == w.tasks[t])
      && w'.tids == w.tids[tid := w.made] && w'.manager == w.manager[tid := w.made]
      && w'.codes == w.codes && w'.reaped == w.reaped
  {
  }

  lemma {:induction false} GrownIsTree(tasks: map<Id, Task>, tids: map<nat, Id>, cur: Id, tid: nat, id: Id)
    requires TreeOk(tasks, tids) && cur in tasks && tid !in tids && forall t :: t in tasks ==> t < id
    ensures TreeOk(Grown(tasks, cur, tid, id), tids[tid := id])
  {
    var tasks' := Grown(tasks, cur, tid, id);
    forall t | t in tasks' && t != INIT ensures Hangs(tasks', t) {
      GrownHangs(tasks, tids, cur, tid, id, t);
    }
    forall p | p in tasks' ensures Owns(tasks', p) {
      GrownOwns(tasks, tids, cur, tid, id, p);
    }
    GrownTids(tasks, tids, cur, tid, id);
  }

  lemma GrownTids(tasks: map<Id, Task>, tids: map<nat, Id>, cur: Id, tid: nat, id: Id)
    requires TreeOk(tasks, tids) && cur in tasks && tid !in tids && id !in tasks
    ensures var tasks', tids' := Grown(tasks, cur, tid, id), tids[tid := id];
      && (forall t {:trigger tasks'[t].tid} :: t in tasks' ==> tasks'[t].tid in tids' && tids'[tasks'[t].tid] == t)
      && (forall k :: k in tids' ==> tids'[k] in tasks' && tasks'[tids'[k]].tid == k)
  {
    var tasks' := Grown(tasks, cur, tid, id);
    assert forall t {:trigger tasks'[t].tid} :: t in tasks ==> tasks'[t].tid == tasks[t].tid;
  }

  lemma GrownOwns(tasks: map<Id, Task>, tids: map<nat, Id>, cur: Id, tid: nat, id: Id, p: Id)
    requires TreeOk(tasks, tids) && cur in tasks && tid !in tids && id !in tasks && p in Grown(tasks, cur, tid, id)
    ensures Owns(Grown(tasks, cur, tid, id), p)
  {
    assert p != id ==> Owns(tasks, p);
  }

  lemma GrownHangs(tasks: map<Id, Task>, tids: map<nat, Id>, cur: Id, tid: nat, id: Id, t: Id)
    requires TreeOk(tasks, tids) && cur in tasks && tid !in tids && id !in tasks && cur < id
    requires t in Grown(tasks, cur, tid, id) && t != INIT
    ensures Hangs(Grown(tasks, cur, tid, id), t)
  {
    assert t != id ==> Hangs(tasks, t) && tasks[t].tid != tid;
  }

  lemma {:induction false} CloneKeepsValid(w: World, cur: Id, tid: nat)
    requires Valid(w) && cur in w.tasks && w.tasks[cur].status != Terminated && tid !in w.tids
    ensures Valid(Cloned(w, cur, tid))
  {
    var w' := Cloned(w, cur, tid);
    GrownIsTree(w.tasks, w.tids, cur, tid, w.made);
    forall t | t in w'.tasks ensures StatusOk(w', t) {
      CloneKeepsStatus(w, cur, tid, t);
    }
  }

  lemma CloneKeepsStatus(w: World, cur: Id, tid: nat, t: Id)
    requires Valid(w) && cur in w.tasks && w.tasks[cur].status != Terminated && tid !in w.tids
    requires t in Cloned(w, cur, tid).tasks
    ensures StatusOk(Cloned(w, cur, tid), t)
  {
    assert t != w.made ==> StatusOk(w, t) && w.tasks[t].tid != tid;
  }

  // ---------------------------------------------------------------- exit

  /** The children under the tids in `done`. */
  function Chosen(kids: map<nat, Id>, done: set<nat>): (r: map<nat, Id>)
    ensures r.Keys == kids.Keys * done
  {
    map k | k in kids && k in done :: kids[k]
  }

  /** The tasks with the children of `cur` whose tids are in `done` handed to init. */
  function Moved(tasks: map<Id, Task>, cur: Id, done: set<nat>): map<Id, Task>
    requires cur in tasks
  {
    var kids := tasks[cur].children;
    map t | t in tasks ::
      if t == INIT then tasks[t].(children := tasks[t].children + Chosen(kids, done))
      else if tasks[t].parent == Some(cur) && tasks[t].tid in done then tasks[t].(parent := Some(INIT))
      else tasks[t]
  }

  /** `tasks` after all children of `cur` have moved and `cur` has come to its `final` status. */
  function Departed(tasks: map<Id, Task>, cur: Id, status: int, final: Status): map<Id, Task>
    requires cur in tasks
  {
    var moved := Moved(tasks, cur, tasks[cur].children.Keys);
    moved[cur := moved[cur].(children := map[], status := final, exitCode := status)]
  }

  /** The world after `cur` has exited. */
  function Exited(w: World, cur: Id, code: int): World
    requires cur in w.tasks
  {
    w.(tasks := Departed(w.tasks, cur, ExitStatus(code), Terminated), manager := w.manager - {w.tasks[cur].tid},
       codes := w.codes[cur := code])
  }

  /** The world after an exit that panicked half way: the children are gone, but the task is
      still managed and will never be terminated. */
  function Stuck(w: World, cur: Id, code: int): World
    requires cur in w.tasks
  {
    w.(tasks := Departed(w.tasks, cur, ExitStatus(code), Zombie))
  }

  /** Handing children to init overwrites none of init's own. */
  lemma NoOverwrite(tasks: map<Id, Task>, tids: map<nat, Id>, cur: Id)
    requires TreeOk(tasks, tids) && cur in tasks && cur != INIT
    ensures tasks[INIT].children.Keys !! tasks[cur].children.Keys
  {
    assert Owns(tasks, INIT) && Owns(tasks, cur);
    forall k | k in tasks[INIT].children && k in tasks[cur].children
      ensures false
    {
    }
  }

  /** Each field of each task after an exit. */
  lemma DepartedFields(tasks: map<Id, Task>, tids: map<nat, Id>, cur: Id, status: int, final: Status, t: Id)
    requires TreeOk(tasks, tids) && cur in tasks && cur != INIT && t in tasks
    ensures var t' := Departed(tasks, cur, status, final)[t];
      && t'.tid == tasks[t].tid
      && t'.parent == (if t != INIT && tasks[t].parent == Some(cur) then Some(INIT) else tasks[t].parent)
      && t'.children == (if t == cur then map[]
                         else if t == INIT then tasks[INIT].children + tasks[cur].children else tasks[t].children)
      && t'.status == (if t == cur then final else tasks[t].status)
      && t'.exitCode == (if t == cur then status else tasks[t].exitCode)
  {
    if t != INIT {
      assert Hangs(tasks, t);
    }
    var kids := tasks[cur].children;
    assert Chosen(kids, kids.Keys) == kids;
  }

  lemma {:induction false} DepartedIsTree(tasks: map<Id, Task>, tids: map<nat, Id>, cur: Id, status: int, final: Status)
    requires TreeOk(tasks, tids) && cur in tasks && cur != INIT
    ensures TreeOk(Departed(tasks, cur, status, final), tids)
  {
    var tasks' := Departed(tasks, cur, status, final);
    DepartedFields(tasks, tids, cur, status, final, INIT);
    forall t | t in tasks' && t != INIT ensures Hangs(tasks', t) {
      DepartedHangs(tasks, tids, cur, status, final, t);
    }
    forall p | p in tasks' ensures Owns(tasks', p) {
      DepartedOwns(tasks, tids, cur, status, final, p);
    }
    forall t | t in tasks' ensures tasks'[t].tid == tasks[t].tid {
      DepartedFields(tasks, tids, cur, status, final, t);
    }
  }

  lemma DepartedHangs(tasks: map<Id, Task>, tids: map<nat, Id>, cur: Id, status: int, final: Status, t: Id)
    requires TreeOk(tasks, tids) && cur in tasks && cur != INIT && t in tasks && t != INIT
    ensures Hangs(Departed(tasks, cur, status, final), t)
  {
    assert Hangs(tasks, t);
    NoOverwrite(tasks, tids, cur);
    DepartedFields(tasks, tids, cur, status, final, INIT);
    DepartedFields(tasks, tids, cur, status, final, t);
    DepartedFields(tasks, tids, cur, status, final, tasks[t].parent.value);
  }

  lemma DepartedOwns(tasks: map<Id, Task>, tids: map<nat, Id>, cur: Id, status: int, final: Status, p: Id)
    requires TreeOk(tasks, tids) && cur in tasks && cur != INIT && p in tasks
    ensures Owns(Departed(tasks, cur, status, final), p)
  {
    var tasks' := Departed(tasks, cur, status, final);
    DepartedFields(tasks, tids, cur, status, final, p);
    assert Owns(tasks, p) && Owns(tasks, cur);
    forall k | k in tasks'[p].children
      ensures var c := tasks'[p].children[k]; c in tasks' && tasks'[c].tid == k && tasks'[c].parent == Some(p)
    {
      DepartedFields(tasks, tids, cur, status, final, tasks'[p].children[k]);
    }
  }

  lemma ExitStatusOk(w: World, cur: Id, code: int, t: Id)
    requires Valid(w) && cur in w.tasks && cur != INIT && w.tasks[cur].status != Terminated && t in w.tasks
    ensures t in Exited(w, cur, code).tasks && StatusOk(Exited(w, cur, code), t)
  {
    assert StatusOk(w, t) && StatusOk(w, cur) && StatusOk(w, INIT);
    DepartedFields(w.tasks, w.tids, cur, ExitStatus(code), Terminated, t);
  }

  lemma {:induction false} ExitKeepsValid(w: World, cur: Id, code: int)
    requires Valid(w) && cur in w.tasks && cur != INIT && w.tasks[cur].status != Terminated
    ensures Valid(Exited(w, cur, code))
  {
    var w' := Exited(w, cur, code);
    DepartedIsTree(w.tasks, w.tids, cur, ExitStatus(code), Terminated);
    forall t {:trigger StatusOk(w', t)} | t in w'.tasks ensures StatusOk(w', t) {
      ExitStatusOk(w, cur, code, t);
    }
    ExitManaged(w, cur, code);
  }

  /** What an exit does to the rest of the world: the task leaves the manager and its code is
      recorded; what becomes of the tasks is `DepartedFields`. */
  lemma ExitedFields(w: World, cur: Id, code: int)
    requires Valid(w) && cur in w.tasks && cur != INIT
    ensures var w' := Exited(w, cur, code);
      && w'.tasks.Keys == w.tasks.Keys && w'.tasks[cur].status == Terminated
      && w'.tasks[cur].exitCode == code % 0x100 * 0x100
      && w'.manager.Keys == w.manager.Keys - {w.tasks[cur].tid}
      && (forall k :: k in w'.manager ==> w'.manager[k] == w.manager[k])
      && w'.codes == w.codes[cur := code] && w'.tids == w.tids && w'.made == w.made && w'.reaped == w.reaped
    ensures var w' := Stuck(w, cur, code);
      && w'.tasks.Keys == w.tasks.Keys && w'.tasks[cur].status == Zombie
      && w'.tasks[cur].exitCode == code % 0x100 * 0x100 && w' == w.(tasks := w'.tasks)
  {
    DepartedFields(w.tasks, w.tids, cur, ExitStatus(code), Terminated, cur);
    DepartedFields(w.tasks, w.tids, cur, ExitStatus(code), Zombie, cur);
  }

  /** An exit that panics half way keeps the tree, too. */
  lemma {:induction false} StuckKeepsValid(w: World, cur: Id, code: int)
    requires Valid(w) && cur in w.tasks && cur != INIT && w.tasks[cur].status != Terminated
    ensures Valid(Stuck(w, cur, code))
  {
    var w' := Stuck(w, cur, code);
    DepartedIsTree(w.tasks, w.tids, cur, ExitStatus(code), Zombie);
    forall t {:trigger StatusOk(w', t)} | t in w'.tasks ensures StatusOk(w', t) {
      assert StatusOk(w, t);
      DepartedFields(w.tasks, w.tids, cur, ExitStatus(code), Zombie, t);
    }
    forall k | k in w'.manager ensures w'.manager[k] in w'.tasks && w'.tasks[w'.manager[k]].tid == k {
      DepartedFields(w.tasks, w.tids, cur, ExitStatus(code), Zombie, w'.manager[k]);
    }
  }

  /** What is left to do after that. */
  lemma ZombieDies(w: World, cur: Id, code: int)
    requires Valid(w) && cur in w.tasks && cur != INIT
    ensures var s := Stuck(w, cur, code);
      && cur in s.tasks && s.tasks[cur].tid == w.tasks[cur].tid
      && Exited(w, cur, code) == s.(tasks := s.tasks[cur := s.tasks[cur].(status := Terminated)],
                                    manager := s.manager - {s.tasks[cur].tid}, codes := s.codes[cur := code])
  {
    DepartedFields(w.tasks, w.tids, cur, ExitStatus(code), Zombie, cur);
  }

  lemma ExitManaged(w: World, cur: Id, code: int)
    requires Valid(w) && cur in w.tasks && cur != INIT
    ensures var w' := Exited(w, cur, code);
      && w'.tasks.Keys == w.tasks.Keys && cur !in w.reaped
      && forall k :: k in w'.manager ==> w'.manager[k] in w'.tasks && w'.tasks[w'.manager[k]].tid == k
  {
    var w' := Exited(w, cur, code);
    forall k | k in w'.manager ensures w'.tasks[w'.manager[k]].tid == k {
      DepartedFields(w.tasks, w.tids, cur, ExitStatus(code), Terminated, w'.manager[k]);
    }
  }

  // ---------------------------------------------------------------- wait

  datatype WaitResult = EINVAL | ECHILD | Nothing | Again | Panics | Done(pid: nat, status: int)

  /** A child under `k` is one a wait for `pid` is about. */
  predicate Matches(k: nat, pid: int) {
    k == pid || pid == -1
  }

  ghost predicate HasMatch(kids: map<nat, Id>, pid: int) {
    exists k :: k in kids && Matches(k, pid)
  }

  /** A matching terminated child. */
  predicate Ripe(tasks: map<Id, Task>, kids: map<nat, Id>, pid: int, k: nat) {
    k in kids && Matches(k, pid) && kids[k] in tasks && tasks[kids[k]].status == Terminated
  }

  /** By the tids of the children: a wait for -1 is about all of them, any other about the
      child under that tid, if there is one. */
  lemma MatchIsTid(tasks: map<Id, Task>, kids: map<nat, Id>, pid: int)
    ensures pid == -1 ==> (HasMatch(kids, pid) <==> kids != map[])
    ensures pid != -1 ==> (HasMatch(kids, pid) <==> pid >= 0 && pid in kids)
    ensures forall k :: FirstRipe(tasks, kids, pid, k) <==> Served(tasks, kids, pid, k)
  {
    if pid != -1 && pid >= 0 && pid in kids {
      assert Matches(pid, pid);
    }
    if pid == -1 && kids != map[] {
      var k :| k in kids;
      assert Matches(k, pid);
    }
    forall k | k in kids && pid == -1
      ensures (forall j :: Ripe(tasks, kids, pid, j) ==> k <= j) <==> NoneEndedBefore(tasks, kids, k)
    {
      assert forall j :: Ripe(tasks, kids, pid, j) <==>
        j in kids && kids[j] in tasks && tasks[kids[j]].status == Terminated;
    }
  }

  /** No child with a lower tid than `k` has terminated. */
  ghost predicate NoneEndedBefore(tasks: map<Id, Task>, kids: map<nat, Id>, k: nat) {
    forall j :: j in kids && kids[j] in tasks && tasks[kids[j]].status == Terminated ==> k <= j
  }

  /** The child under `k` has terminated, and is the one asked for or, if any will do, the one
      with the lowest tid. */
  ghost predicate Served(tasks: map<Id, Task>, kids: map<nat, Id>, pid: int, k: nat) {
    && k in kids && kids[k] in tasks && tasks[kids[k]].status == Terminated
    && if pid == -1 then NoneEndedBefore(tasks, kids, k) else k == pid
  }

  /** `k` is the first such child in the order of tids. */
  ghost predicate FirstRipe(tasks: map<Id, Task>, kids: map<nat, Id>, pid: int, k: nat) {
    Ripe(tasks, kids, pid, k) && forall j :: Ripe(tasks, kids, pid, j) ==> k <= j
  }

  /** The tasks without the terminated child `k` of `cur`. */
  function Cut(tasks: map<Id, Task>, cur: Id, k: nat): map<Id, Task>
    requires cur in tasks && k in tasks[cur].children
  {
    tasks[cur := tasks[cur].(children := tasks[cur].children - {k})] - {tasks[cur].children[k]}
  }

  /** The world after `cur` has reaped its child `k`. */
  function Reaped(w: World, cur: Id, k: nat): World
    requires cur in w.tasks && k in w.tasks[cur].children && w.tasks[cur].children[k] in w.tasks
  {
    var c := w.tasks[cur].children[k];
    w.(tasks := Cut(w.tasks, cur, k), tids := w.tids - {k}, reaped := w.reaped[c := w.tasks[c].exitCode])
  }

  /** What a reap takes away: the child under `k`, from its parent, from the tasks and from
      the tids. Every other child, task and tid stays. */
  lemma ReapedFields(w: World, cur: Id, k: nat)
    requires Valid(w) && cur in w.tasks && k in w.tasks[cur].children
    requires w.tasks[cur].children[k] in w.tasks && w.tasks[w.tasks[cur].children[k]].status == Terminated
    ensures var (w', c) := (Reaped(w, cur, k), w.tasks[cur].children[k]);
      && w'.tasks.Keys == w.tasks.Keys - {c} && w'.tids.Keys == w.tids.Keys - {k}
      && (forall t :: t in w'.tasks && t != cur ==> w'.tasks[t] == w.tasks[t])
      && (forall j :: j in w'.tids ==> w'.tids[j] == w.tids[j])
      && cur in w'.tasks && w'.tasks[cur].children.Keys == w.tasks[cur].children.Keys - {k}
      && (forall j :: j in w'.tasks[cur].children ==> w'.tasks[cur].children[j] == w.tasks[cur].children[j])
      && w'.tasks[cur] == w.tasks[cur].(children := w'.tasks[cur].children)
      && w'.reaped == w.reaped[c := w.tasks[c].exitCode] && w'.codes == w.codes && w'.manager == w.manager
      && w'.made == w.made
  {
    var c := w.tasks[cur].children[k];
    assert Owns(w.tasks, cur);
    assert c != cur by { assert c == INIT || Hangs(w.tasks, c); }
  }

  lemma {:induction false} CutIsTree(tasks: map<Id, Task>, tids: map<nat, Id>, cur: Id, k: nat)
    requires TreeOk(tasks, tids) && cur in tasks && k in tasks[cur].children
    requires tasks[cur].children[k] in tasks && tasks[tasks[cur].children[k]].children == map[]
    requires tasks[tasks[cur].children[k]].status == Terminated
    ensures TreeOk(Cut(tasks, cur, k), tids - {k})
  {
    var tasks' := Cut(tasks, cur, k);
    var c := tasks[cur].children[k];
    assert Owns(tasks, cur);
    assert c != cur by { assert c == INIT || Hangs(tasks, c); }
    forall t | t in tasks' && t != INIT ensures Hangs(tasks', t) {
      assert Hangs(tasks, t);
    }
    forall p | p in tasks' ensures Owns(tasks', p) {
      assert Owns(tasks, p);
    }
    forall t | t in tasks' ensures tasks'[t].tid == tasks[t].tid && tasks[t].tid != k {
      assert tasks[c].tid == k;
    }
  }

  lemma {:induction false} ReapKeepsValid(w: World, cur: Id, k: nat)
    requires Valid(w) && cur in w.tasks && k in w.tasks[cur].children
    requires w.tasks[cur].children[k] in w.tasks && w.tasks[w.tasks[cur].children[k]].status == Terminated
    ensures Valid(Reaped(w, cur, k))
    ensures w.tasks[cur].children[k] !in w.reaped
  {
    var w' := Reaped(w, cur, k);
    var c := w.tasks[cur].children[k];
    assert StatusOk(w, c) && StatusOk(w, cur) && Owns(w.tasks, cur);
    CutIsTree(w.tasks, w.tids, cur, k);
    forall t | t in w'.tasks ensures StatusOk(w', t) {
      assert StatusOk(w, t);
    }
    forall j | j in w'.manager
      ensures w'.manager[j] in w'.tasks && w'.tasks[w'.manager[j]].tid == j
    {
      assert StatusOk(w, w.manager[j]);
    }
  }

  /** What a terminated child shows is the status of the code it gave to exit. */
  lemma TerminatedChild(w: World, cur: Id, k: nat)
    requires Valid(w) && cur in w.tasks && Ripe(w.tasks, w.tasks[cur].children, k, k)
    ensures var c := w.tasks[cur].children[k]; c in w.codes && w.tasks[c].exitCode == ExitStatus(w.codes[c])
  {
    assert StatusOk(w, w.tasks[cur].children[k]);
  }

  // ---------------------------------------------------------------- the kernel

  class Kernel {
    var tasks: map<Id, Task>
    var tids: map<nat, Id>
    var manager: map<nat, Id>
    var made: nat
    ghost var codes: map<Id, int>
    ghost var reaped: map<Id, int>

    ghost function State(): World
      reads this
    {
      World(tasks, tids, manager, made, codes, reaped)
    }

    constructor ()
      ensures Valid(State()) && tasks.Keys == {INIT} && codes == map[] && reaped == map[]
    {
      tasks := map[INIT := Task(INIT_TID, Ready, None, map[], 0)];
      tids := map[INIT_TID := INIT];
      manager := map[INIT_TID := INIT];
      made := 1;
      codes, reaped := map[], map[];
    }

    /** `tid` is what the index allocator hands out, if it is not exhausted: a number
        that is not allocated. */
    method Clone(cur: Id, tid: Option<nat>) returns (r: Option<nat>)
      requires Valid(State()) && cur in tasks && tasks[cur].status != Terminated
      requires tid.Some? ==> tid.value !in tids
      modifies this
      ensures r == tid && Valid(State())
      ensures State() == if tid.Some? then Cloned(old(State()), cur, tid.value) else old(State())
    {
      r := tid;
      if tid.None? {
        return;
      }
      CloneKeepsValid(State(), cur, tid.value);
      var id := made;
      made := made + 1;
      tids := tids[tid.value := id];
      tasks := tasks[cur := tasks[cur].(children := tasks[cur].children[tid.value := id])]
                    [id := Task(tid.value, Ready, Some(cur), map[], 0)];
      manager := manager[tid.value := id];
    }

    /** Exit hands the children to init one by one, becomes a zombie, dies, and leaves the
        manager. `clearOk` says that no word is to be cleared for the threads that wait for
        the exit, or that the task can write it; if it cannot, the exit panics half way. The
        init process may not exit. */
    method Exit(cur: Id, code: int, clearOk: bool) returns (panicked: bool)
      requires Valid(State()) && cur in tasks && tasks[cur].status != Terminated
      modifies this
      ensures panicked == (cur == INIT || !clearOk) && Valid(State())
      ensures State() ==
        if cur == INIT then old(State())
        else if !clearOk then Stuck(old(State()), cur, code)
        else Exited(old(State()), cur, code)
    {
      if tasks[cur].tid == INIT_TID {
        assert StatusOk(State(), cur) && StatusOk(State(), INIT);
        return true;
      }
      ghost var before := State();
      BecomeZombie(cur, code);
      if clearOk {
        Terminate(cur, before, code);
      }
      panicked := !clearOk;
    }

    method BecomeZombie(cur: Id, code: int)
      requires Valid(State()) && cur in tasks && cur != INIT && tasks[cur].status != Terminated
      modifies this
      ensures State() == Stuck(old(State()), cur, code) && Valid(State())
    {
      StuckKeepsValid(State(), cur, code);
      MoveChildren(cur);
      Die(cur, ExitStatus(code));
    }

    /** Takes a zombie out of the manager and terminates it. */
    method Terminate(cur: Id, ghost before: World, ghost code: int)
      requires Valid(before) && cur in before.tasks && cur != INIT && before.tasks[cur].status != Terminated
      requires State() == Stuck(before, cur, code)
      modifies this
      ensures State() == Exited(before, cur, code) && Valid(State())
    {
      ZombieDies(before, cur, code);
      ExitKeepsValid(before, cur, code);
      manager := manager - {tasks[cur].tid};
      tasks := tasks[cur := tasks[cur].(status := Terminated)];
      codes := codes[cur := code];
    }

    /** Clears the children and becomes a zombie. */
    method Die(cur: Id, status: int)
      requires cur in tasks
      modifies this`tasks
      ensures tasks == old(tasks)[cur := old(tasks)[cur].(children := map[], status := Zombie, exitCode := status)]
    {
      tasks := tasks[cur := tasks[cur].(children := map[])];
      tasks := tasks[cur := tasks[cur].(status := Zombie)];
      tasks := tasks[cur := tasks[cur].(exitCode := status)];
    }

    /** Hands one child to init. */
    method HandOver(child: Id, k: nat)
      requires child in tasks && INIT in tasks && child != INIT
      modifies this`tasks
      ensures tasks == var m := old(tasks);
        m[child := m[child].(parent := Some(INIT))][INIT := m[INIT].(children := m[INIT].children[k := child])]
    {
      tasks := tasks[child := tasks[child].(parent := Some(INIT))];
      tasks := tasks[INIT := tasks[INIT].(children := tasks[INIT].children[k := child])];
    }

    method MoveChildren(cur: Id)
      requires TreeOk(tasks, tids) && cur in tasks && cur != INIT
      modifies this`tasks
      ensures tasks == Moved(old(tasks), cur, old(tasks)[cur].children.Keys)
    {
      ghost var tasks0 := tasks;
      var kids := tasks[cur].children;
      var rest := kids.Keys;
      MovedNone(tasks, cur);
      assert kids.Keys - rest == {};
      while rest != {}
        invariant rest <= kids.Keys
        invariant tasks == Moved(tasks0, cur, kids.Keys - rest)
        decreases rest
      {
        var k :| k in rest;
        OnlyChild(tasks0, tids, cur, k);
        MovedNext(tasks0, cur, kids.Keys - rest, k);
        assert kids.Keys - (rest - {k}) == kids.Keys - rest + {k};
        HandOver(kids[k], k);
        rest := rest - {k};
      }
      assert kids.Keys - rest == kids.Keys;
    }

    /** The first terminated child among those the wait is about: nothing at all when
        there is no such child, `Some(None)` when none of them has terminated. */
    method FilterExitTask(cur: Id, pid: int) returns (r: Option<Option<nat>>)
      requires Valid(State()) && cur in tasks
      ensures r == None <==> !HasMatch(tasks[cur].children, pid)
      ensures r == Some(None) ==> forall k :: !Ripe(tasks, tasks[cur].children, pid, k)
      ensures r.Some? && r.value.Some? ==> FirstRipe(tasks, tasks[cur].children, pid, r.value.value)
      ensures var kids := tasks[cur].children;
        && (r == None <==> if pid == -1 then kids == map[] else pid < 0 || pid !in kids)
        && (r == Some(None) ==> forall k :: !Served(tasks, kids, pid, k))
        && (r.Some? && r.value.Some? ==> Served(tasks, kids, pid, r.value.value))
    {
      MatchIsTid(tasks, tasks[cur].children, pid);
      var kids := tasks[cur].children;
      var rest := kids.Keys;
      r := None;
      while rest != {}
        invariant rest <= kids.Keys
        invariant r == None <==> forall k :: k in kids && k !in rest ==> !Matches(k, pid)
        invariant r == Some(None) ==> forall k :: k !in rest ==> !Ripe(tasks, kids, pid, k)
        invariant r.Some? && r.value.Some? ==>
          Ripe(tasks, kids, pid, r.value.value) &&
            forall k :: k !in rest && Ripe(tasks, kids, pid, k) ==> r.value.value <= k
        decreases rest
      {
        var k :| k in rest;
        rest := rest - {k};
        if Matches(k, pid) {
          if r.None? {
            r := Some(None);
          }
          if Ripe(tasks, kids, pid, k) && (r.value.None? || k < r.value.value) {
            r := Some(Some(k));
          }
        }
      }
    }

    /** Takes a terminated child out of the tree and gives its tid back. */
    method Reap(cur: Id, k: nat)
      requires Valid(State()) && cur in tasks && k in tasks[cur].children
      requires tasks[cur].children[k] in tasks && tasks[tasks[cur].children[k]].status == Terminated
      modifies this
      ensures Valid(State()) && State() == Reaped(old(State()), cur, k)
    {
      ReapKeepsValid(State(), cur, k);
      var c := tasks[cur].children[k];
      reaped := reaped[c := tasks[c].exitCode];
      tasks := tasks[cur := tasks[cur].(children := tasks[cur].children - {k})] - {c};
      tids := tids - {k};
    }

    /** One turn of wait4. `exited` are the tids whose kernel thread is done; `keep` and
        `hang` are the WNOWAIT and WNOHANG options; `statusOk` says that no status is asked
        for, or that the caller can write it where it is asked for. `Again` stands for
        yielding and trying once more. */
    method Wait(cur: Id, pid: int, optionsOk: bool, statusOk: bool, keep: bool, hang: bool, exited: set<nat>)
      returns (r: WaitResult)
      requires Valid(State()) && cur in tasks && tasks[cur].status != Terminated
      modifies this
      ensures Valid(State())
      ensures r == EINVAL <==> !optionsOk
      ensures r == ECHILD <==> optionsOk && !HasMatch(old(tasks)[cur].children, pid)
      ensures r == Nothing ==> hang
      ensures r == Again ==> !hang
      ensures r.Done? ==>
        && statusOk && FirstRipe(old(tasks), old(tasks)[cur].children, pid, r.pid) && r.pid in exited
        && var c := old(tasks)[cur].children[r.pid]; c in old(codes) && r.status == ExitStatus(old(codes)[c])
      ensures r == Panics ==>
        !statusOk && exists k :: FirstRipe(old(tasks), old(tasks)[cur].children, pid, k) && k in exited
      ensures r == Nothing || r == Again ==>
        forall k :: FirstRipe(old(tasks), old(tasks)[cur].children, pid, k) ==> k !in exited
      ensures State() == if r.Done? && !keep then Reaped(old(State()), cur, r.pid) else old(State())
      ensures var kids := old(tasks)[cur].children;
        optionsOk ==> (r == ECHILD <==> if pid == -1 then kids == map[] else pid < 0 || pid !in kids)
      ensures r.Done? && pid != -1 ==> r.pid == pid
      ensures r.Done? && pid == -1 ==> NoneEndedBefore(old(tasks), old(tasks)[cur].children, r.pid)
      ensures forall k :: Served(old(tasks), old(tasks)[cur].children, pid, k) && k in exited && optionsOk ==>
        if statusOk then r.Done? && r.pid == k else r == Panics
    {
      MatchIsTid(tasks, tasks[cur].children, pid);
      if !optionsOk {
        return EINVAL;
      }
      var waitTask := FilterExitTask(cur, pid);
      if waitTask.None? {
        return ECHILD;
      }
      if waitTask.value.Some? {
        var k := waitTask.value.value;
        if k in exited {
          TerminatedChild(State(), cur, k);
          var status := tasks[tasks[cur].children[k]].exitCode;
          if !statusOk {
            return Panics;
          }
          if !keep {
            Reap(cur, k);
          }
          return Done(k, status);
        }
      }
      r := if hang then Nothing else Again;
    }
  }

  lemma MovedNone(tasks: map<Id, Task>, cur: Id)
    requires cur in tasks
    ensures Moved(tasks, cur, {}) == tasks
  {
    var kids := tasks[cur].children;
    assert Chosen(kids, {}) == map[];
    assert INIT in tasks ==> tasks[INIT].children + map[] == tasks[INIT].children;
  }

  /** The child under `k` is the only task with this parent and this tid. */
  lemma OnlyChild(tasks: map<Id, Task>, tids: map<nat, Id>, cur: Id, k: nat)
    requires TreeOk(tasks, tids) && cur in tasks && k in tasks[cur].children
    ensures IsOnlyChild(tasks, cur, k, tasks[cur].children[k])
  {
    assert Owns(tasks, cur);
    forall t | t in tasks && t != INIT && tasks[t].parent == Some(cur) && tasks[t].tid == k
      ensures t == tasks[cur].children[k]
    {
      assert Hangs(tasks, t);
    }
  }

  ghost predicate IsOnlyChild(tasks: map<Id, Task>, cur: Id, k: nat, c: Id) {
    && INIT in tasks && c in tasks && c != INIT && tasks[c].parent == Some(cur) && tasks[c].tid == k
    && forall t :: t in tasks && t != INIT && tasks[t].parent == Some(cur) && tasks[t].tid == k ==> t == c
  }

  lemma MovedNext(tasks: map<Id, Task>, cur: Id, done: set<nat>, k: nat)
    requires cur in tasks && cur != INIT && k in tasks[cur].children && k !in done
    requires IsOnlyChild(tasks, cur, k, tasks[cur].children[k])
    ensures var m := Moved(tasks, cur, done);
      var c := tasks[cur].children[k];
      Moved(tasks, cur, done + {k}) ==
        m[c := m[c].(parent := Some(INIT))][INIT := m[INIT].(children := m[INIT].children[k := c])]
  {
    var m, m' := Moved(tasks, cur, done), Moved(tasks, cur, done + {k});
    assert m'[INIT].children == m[INIT].children[k := tasks[cur].children[k]];
  }

  // ---------------------------------------------------------------- runs

  datatype Event =
    | DoClone(cur: Id, tid: nat)
    | DoExit(cur: Id, code: int)
    | DoStuckExit(cur: Id, code: int)
    | DoReap(cur: Id, k: nat)
    | DoLook(cur: Id, k: nat)

  /** The event can happen: its task runs, and a clone gets a free tid or a wait, one that
      reaps or one that only looks (WNOWAIT), finds a terminated child. */
  ghost predicate Enabled(w: World, e: Event) {
    && e.cur in w.tasks && w.tasks[e.cur].status != Terminated
    && match e
       case DoClone(_, tid) => tid !in w.tids
       case DoExit(cur, _) => cur != INIT
       case DoStuckExit(cur, _) => cur != INIT
       case DoReap(cur, k) => IsTerminatedChild(w, cur, k)
       case DoLook(cur, k) => IsTerminatedChild(w, cur, k)
  }

  ghost predicate IsTerminatedChild(w: World, cur: Id, k: nat)
    requires cur in w.tasks
  {
    && k in w.tasks[cur].children && w.tasks[cur].children[k] in w.tasks
    && w.tasks[w.tasks[cur].children[k]].status == Terminated
  }

  ghost function Step(w: World, e: Event): (w': World)
    requires Valid(w) && Enabled(w, e)
    ensures Valid(w')
  {
    match e
    case DoClone(cur, tid) => CloneKeepsValid(w, cur, tid); Cloned(w, cur, tid)
    case DoExit(cur, code) => ExitKeepsValid(w, cur, code); Exited(w, cur, code)
    case DoStuckExit(cur, code) => StuckKeepsValid(w, cur, code); Stuck(w, cur, code)
    case DoReap(cur, k) => ReapKeepsValid(w, cur, k); Reaped(w, cur, k)
    case DoLook(cur, k) => w
  }

  ghost predicate IsRun(w: World, run: seq<Event>)
    requires Valid(w)
    decreases |run|
  {
    run == [] || (Enabled(w, run[0]) && IsRun(Step(w, run[0]), run[1..]))
  }

  ghost function After(w: World, run: seq<Event>): (w': World)
    requires Valid(w) && IsRun(w, run)
    ensures Valid(w')
    decreases |run|
  {
    if run == [] then w else After(Step(w, run[0]), run[1..])
  }

  /** A status that a wait returned: of which task, and whether that reaped it. */
  datatype Handed = Handed(task: Id, status: int, reaped: bool)

  ghost function HandedBy(w: World, e: Event): seq<Handed>
    requires Enabled(w, e)
  {
    if e.DoReap? || e.DoLook? then
      var c := w.tasks[e.cur].children[e.k];
      [Handed(c, w.tasks[c].exitCode, e.DoReap?)]
    else []
  }

  lemma StepHands(w: World, e: Event)
    requires Valid(w) && Enabled(w, e)
    ensures Step(w, e).reaped.Keys == w.reaped.Keys + (if e.DoReap? then {w.tasks[e.cur].children[e.k]} else {})
    ensures forall h :: h in HandedBy(w, e) ==>
      h.task !in w.reaped && h.task in Step(w, e).codes && h.status == ExitStatus(Step(w, e).codes[h.task])
  {
    if e.DoReap? || e.DoLook? {
      assert StatusOk(w, w.tasks[e.cur].children[e.k]);
    }
  }

  /** The statuses that waits return over a run. */
  ghost function Statuses(w: World, run: seq<Event>): seq<Handed>
    requires Valid(w) && IsRun(w, run)
    decreases |run|
  {
    if run == [] then [] else HandedBy(w, run[0]) + Statuses(Step(w, run[0]), run[1..])
  }

  /** The tasks listed were not reaped before and come with the status of the code they
      exited with; one that is reaped is not listed again. */
  ghost predicate Once(s: seq<Handed>, before: set<Id>, codes: map<Id, int>) {
    && (forall i :: 0 <= i < |s| ==>
          s[i].task !in before && s[i].task in codes && s[i].status == ExitStatus(codes[s[i].task]))
    && (forall i, j :: 0 <= i < j < |s| && s[i].reaped ==> s[i].task != s[j].task)
  }

  lemma OnceMore(s: seq<Handed>, first: Handed, before: set<Id>, codes: map<Id, int>)
    requires Once(s, if first.reaped then before + {first.task} else before, codes)
    requires first.task !in before && first.task in codes && first.status == ExitStatus(codes[first.task])
    ensures Once([first] + s, before, codes)
  {
  }

  lemma OnceStep(w: World, e: Event, rest: seq<Handed>, codes: map<Id, int>)
    requires Valid(w) && Enabled(w, e)
    requires Once(rest, Step(w, e).reaped.Keys, codes)
    requires forall t :: t in Step(w, e).codes ==> t in codes && codes[t] == Step(w, e).codes[t]
    ensures Once(HandedBy(w, e) + rest, w.reaped.Keys, codes)
  {
    StepHands(w, e);
    if e.DoReap? || e.DoLook? {
      var first := HandedBy(w, e)[0];
      assert first in HandedBy(w, e);
      OnceMore(rest, first, w.reaped.Keys, codes);
    } else {
      assert [] + rest == rest;
    }
  }

  /** Every status that a wait returns is that of the code its task exited with. A task
      is reaped at most once, and after that no wait returns its status again, not even
      one that only looks. */
  lemma {:induction false} ReapedAtMostOnce(w: World, run: seq<Event>)
    requires Valid(w) && IsRun(w, run)
    ensures Once(Statuses(w, run), w.reaped.Keys, After(w, run).codes)
    decreases |run|
  {
    if run != [] {
      var w' := Step(w, run[0]);
      ReapedAtMostOnce(w', run[1..]);
      CodesStay(w', run[1..]);
      OnceStep(w, run[0], Statuses(w', run[1..]), After(w', run[1..]).codes);
    }
  }

  lemma StepKeepsCodes(w: World, e: Event)
    requires Valid(w) && Enabled(w, e)
    ensures forall t :: t in w.codes ==> t in Step(w, e).codes && Step(w, e).codes[t] == w.codes[t]
  {
    assert StatusOk(w, e.cur);
  }

  /** A code once given to exit is never replaced. */
  lemma {:induction false} CodesStay(w: World, run: seq<Event>)
    requires Valid(w) && IsRun(w, run)
    ensures forall t :: t in w.codes ==> t in After(w, run).codes && After(w, run).codes[t] == w.codes[t]
    decreases |run|
  {
    if run != [] {
      StepKeepsCodes(w, run[0]);
      CodesStay(Step(w, run[0]), run[1..]);
    }
  }
}
