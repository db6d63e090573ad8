/** The table of open files (common/task/task, utils.rs and resource.rs): a vector of
    slots in which an item keeps its index. */
module SlotVecs {
  import opened Bytes

  /** How many slots hold an item. */
  function Occupied<T>(slots: seq<Option<T>>): (n: nat)
    ensures n <= |slots|
    ensures n == |slots| <==> forall i :: 0 <= i < |slots| ==> slots[i].Some?
  {
    if slots == [] then 0 else (if slots[0].Some? then 1 else 0) + Occupied(slots[1..])
  }

  lemma {:induction false} OccupiedUpdate<T>(slots: seq<Option<T>>, i: nat, x: Option<T>)
    requires i < |slots|
    ensures Occupied(slots[i := x]) - Occupied(slots) == (if x.Some? then 1 else 0) - (if slots[i].Some? then 1 else 0)
  {
    if i > 0 {
      assert slots[i := x][1..] == slots[1..][i - 1 := x];
      OccupiedUpdate(slots[1..], i - 1, x);
    }
  }

  lemma {:induction false} OccupiedAppend<T>(slots: seq<Option<T>>, x: Option<T>)
    ensures Occupied(slots + [x]) == Occupied(slots) + (if x.Some? then 1 else 0)
  {
    if slots != [] {
      assert (slots + [x])[1..] == slots[1..] + [x];
      OccupiedAppend(slots[1..], x);
    }
  }

  /** The items by index. */
  function Items<T>(slots: seq<Option<T>>): map<nat, T> {
    map i: nat | i < |slots| && slots[i].Some? :: slots[i].value
  }

  function Lookup<T>(m: map<nat, T>, i: nat): Option<T> {
    if i in m then Some(m[i]) else None
  }

  /** `i` is the lowest index that holds nothing. */
  ghost predicate LowestFree<T>(m: map<nat, T>, i: nat) {
    i !in m && forall j :: 0 <= j < i ==> j in m
  }

  // ---------------------------------------------------------------- the table as a value

  /** The slots, and the counter that the source keeps beside them. */
  datatype Table<T> = Table(slots: seq<Option<T>>, numOccupied: nat) {
    ghost predicate Counts() {
      numOccupied == Occupied(slots)
    }
  }

  /** What an operation answers: where it put an item, what it found, or nothing, because it
      panicked. */
  datatype Answer<T> = At(idx: nat) | Found(item: Option<T>) | Panicked

  /** The first slot that holds nothing, or the length. */
  function FirstFree<T>(slots: seq<Option<T>>): (i: nat)
    ensures i <= |slots|
    ensures i < |slots| ==> slots[i].None?
    ensures forall j :: 0 <= j < i ==> slots[j].Some?
  {
    if slots == [] || slots[0].None? then 0 else 1 + FirstFree(slots[1..])
  }

  function AfterPut<T>(t: Table<T>, room: nat, entry: T): (Table<T>, Answer<T>) {
    if t.numOccupied == |t.slots| then
      if |t.slots| < room then (Table(t.slots + [Some(entry)], t.numOccupied + 1), At(|t.slots|)) else (t, Panicked)
    else
      var i := FirstFree(t.slots);
      if i < |t.slots| then (Table(t.slots[i := Some(entry)], t.numOccupied + 1), At(i)) else (t, Panicked)
  }

  /** `n` slots more that hold nothing. */
  function Grown<T>(slots: seq<Option<T>>, n: nat): (r: seq<Option<T>>)
    ensures |r| == |slots| + n
    decreases n
  {
    if n == 0 then slots else Grown(slots + [None], n - 1)
  }

  /** At the largest index the new length wraps to zero, which drops every item. */
  function AfterPutAt<T>(t: Table<T>, room: nat, idx: u64, item: T): (Table<T>, Answer<T>) {
    if idx < |t.slots| then
      (Table(t.slots[idx := Some(item)], t.numOccupied + (if t.slots[idx].None? then 1 else 0)), Found(t.slots[idx]))
    else if idx + 1 == USIZE_RANGE then (t.(slots := []), Panicked)
    else if idx + 1 > room then (t, Panicked)
    else (Table(Grown(t.slots, idx + 1 - |t.slots|)[idx := Some(item)], t.numOccupied + 1), Found(None))
  }

  function AfterRemove<T>(t: Table<T>, idx: u64): (Table<T>, Answer<T>)
    requires Occupied(t.slots) <= t.numOccupied
  {
    if idx >= |t.slots| then (t, Found(None))
    else
      OneIsOccupied(t.slots, idx);
      (Table(t.slots[idx := None], t.numOccupied - (if t.slots[idx].Some? then 1 else 0)), Found(t.slots[idx]))
  }

  lemma OneIsOccupied<T>(slots: seq<Option<T>>, i: nat)
    requires i < |slots|
    ensures slots[i].Some? ==> Occupied(slots) > 0
  {
    OccupiedUpdate(slots, i, None);
  }

  class SlotVec<T> {
    var slots: seq<Option<T>>
    var numOccupied: nat

    /** How many slots there is memory for. */
    const room: nat

    ghost predicate Valid()
      reads this
    {
      |slots| <= room < USIZE_RANGE && Occupied(slots) <= numOccupied
    }

    ghost function State(): Table<T>
      reads this
    {
      Table(slots, numOccupied)
    }

    constructor (room: nat)
      requires room < USIZE_RANGE
      ensures Valid() && this.room == room && State() == Table([], 0)
    {
      slots, numOccupied, this.room := [], 0, room;
    }

    method Get(idx: nat) returns (r: Option<T>)
      ensures r == Lookup(Items(slots), idx)
    {
      if idx >= |slots| {
        return None;
      }
      r := slots[idx];
    }

    method Put(entry: T) returns (r: Answer<T>)
      requires Valid()
      modifies this
      ensures Valid() && (State(), r) == AfterPut(old(State()), room, entry)
    {
      if numOccupied == |slots| {
        if |slots| == room {
          return Panicked;
        }
        OccupiedAppend(slots, Some(entry));
        slots := slots + [Some(entry)];
        r := At(|slots| - 1);
      } else {
        var idx := 0;
        while idx < |slots| && slots[idx].Some?
          invariant idx <= |slots|
          invariant FirstFree(slots) == idx + FirstFree(slots[idx..])
        {
          assert slots[idx..][1..] == slots[idx + 1..];
          idx := idx + 1;
        }
        if idx == |slots| {
          return Panicked;
        }
        OccupiedUpdate(slots, idx, Some(entry));
        slots := slots[idx := Some(entry)];
        r := At(idx);
      }
      numOccupied := numOccupied + 1;
    }

    method PutAt(idx: u64, item: T) returns (r: Answer<T>)
      requires Valid()
      modifies this
      ensures Valid() && (State(), r) == AfterPutAt(old(State()), room, idx, item)
    {
      if idx >= |slots| {
        var ok := Reach(idx);
        if !ok {
          return Panicked;
        }
      }
      var before := Swap(idx, item);
      r := Found(before);
    }

    /** Adds slots up to `idx`, unless there is no memory for them or their number wraps. */
    method Reach(idx: u64) returns (ok: bool)
      requires Valid() && |slots| <= idx
      modifies this`slots
      ensures Valid() && ok == (idx + 1 <= room) && (ok ==> idx < |slots| && slots[idx].None?)
      ensures slots ==
        if ok then Grown(old(slots), idx + 1 - |old(slots)|) else if idx + 1 == USIZE_RANGE then [] else old(slots)
    {
      var len := (idx + 1) % USIZE_RANGE;
      if len > room {
        return false;
      }
      if len > 0 {
        GrownCounts(slots, len - |slots|);
      }
      Resize(len);
      ok := idx < |slots|;
    }

    /** Puts an item in a slot and returns what was there. */
    method Swap(idx: nat, item: T) returns (before: Option<T>)
      requires Valid() && idx < |slots|
      modifies this
      ensures Valid() && before == old(slots)[idx] && slots == old(slots)[idx := Some(item)]
      ensures numOccupied == old(numOccupied) + if before.None? then 1 else 0
    {
      OccupiedUpdate(slots, idx, Some(item));
      before := slots[idx];
      slots := slots[idx := Some(item)];
      if before.None? {
        numOccupied := numOccupied + 1;
      }
    }

    /** Cuts the slots off at `len`, or adds empty ones up to there. */
    method Resize(len: nat)
      modifies this`slots
      ensures slots == if len <= |old(slots)| then old(slots)[..len] else Grown(old(slots), len - |old(slots)|)
    {
      ghost var before := slots;
      if len < |slots| {
        slots := slots[..len];
      }
      while |slots| < len
        invariant len < |before| ==> slots == before[..len]
        invariant len >= |before| ==> |slots| <= len && Grown(slots, len - |slots|) == Grown(before, len - |before|)
      {
        slots := slots + [None];
      }
    }

    method Remove(idx: u64) returns (r: Answer<T>)
      requires Valid()
      modifies this
      ensures Valid() && (State(), r) == AfterRemove(old(State()), idx)
    {
      if idx >= |slots| {
        return Found(None);
      }
      OccupiedUpdate(slots, idx, None);
      r := Found(slots[idx]);
      slots := slots[idx := None];
      if r.item.Some? {
        numOccupied := numOccupied - 1;
      }
    }

    /** Whether the table holds nothing, from the counter alone. */
    method IsEmpty() returns (r: bool)
      requires Valid()
      ensures State().Counts() ==> (r <==> Items(slots) == map[])
      ensures !State().Counts() ==> !r
    {
      r := numOccupied == 0;
      OccupiedIsItems(slots);
    }
  }

  // ---------------------------------------------------------------- what the operations mean

  lemma {:induction false} GrownCounts<T>(slots: seq<Option<T>>, n: nat)
    ensures Occupied(Grown(slots, n)) == Occupied(slots) && Items(Grown(slots, n)) == Items(slots)
    ensures forall i :: |slots| <= i < |slots| + n ==> Grown(slots, n)[i].None?
    ensures Grown(slots, n)[..|slots|] == slots
    decreases n
  {
    if n > 0 {
      OccupiedAppend(slots, None);
      assert Items(slots + [None]) == Items(slots);
      GrownCounts(slots + [None], n - 1);
      assert Grown(slots, n)[..|slots|] == Grown(slots, n)[..|slots| + 1][..|slots|];
      assert Grown(slots, n)[|slots|] == Grown(slots, n)[..|slots| + 1][|slots|];
    }
  }

  /** Putting an item in a table whose counter is right uses the lowest free index, and fails
      exactly if every slot is taken and there is no memory for one more. */
  lemma PutIsUpdate<T>(t: Table<T>, room: nat, entry: T)
    requires t.Counts() && |t.slots| <= room
    ensures var (t', r) := AfterPut(t, room, entry);
      && (r.Panicked? ==> t' == t && |t.slots| == room && |Items(t.slots)| == room)
      && (!r.Panicked? ==> r.At? && LowestFree(Items(t.slots), r.idx) && t'.Counts())
      && (!r.Panicked? ==> Items(t'.slots) == Items(t.slots)[r.idx := entry])
  {
    OccupiedIsItems(t.slots);
    if t.numOccupied == |t.slots| {
      OccupiedAppend(t.slots, Some(entry));
      ItemsAppend(t.slots, entry);
    } else {
      OccupiedUpdate(t.slots, FirstFree(t.slots), Some(entry));
      ItemsUpdate(t.slots, FirstFree(t.slots), entry);
    }
  }

  /** Putting an item at an index updates it and answers what was there, or it panics:
      beyond the memory nothing changes, at the largest index every item is dropped. */
  lemma PutAtIsUpdate<T>(t: Table<T>, room: nat, idx: u64, item: T)
    requires |t.slots| <= room < USIZE_RANGE
    ensures var (t', r) := AfterPutAt(t, room, idx, item);
      && (r.Panicked? <==> |t.slots| <= idx && (idx + 1 == USIZE_RANGE || idx + 1 > room))
      && (idx + 1 == USIZE_RANGE ==> t' == t.(slots := []))
      && (r.Panicked? && idx + 1 < USIZE_RANGE ==> t' == t)
      && (!r.Panicked? ==>
           && r == Found(Lookup(Items(t.slots), idx)) && Items(t'.slots) == Items(t.slots)[idx := item]
           && (t'.Counts() <==> t.Counts()))
  {
    if idx < |t.slots| {
      OccupiedUpdate(t.slots, idx, Some(item));
      ItemsUpdate(t.slots, idx, item);
    } else if idx + 1 <= room {
      GrownCounts(t.slots, idx + 1 - |t.slots|);
      OccupiedUpdate(Grown(t.slots, idx + 1 - |t.slots|), idx, Some(item));
      ItemsUpdate(Grown(t.slots, idx + 1 - |t.slots|), idx, item);
    }
  }

  lemma ItemsUpdate<T>(slots: seq<Option<T>>, i: nat, x: T)
    requires i < |slots|
    ensures Items(slots[i := Some(x)]) == Items(slots)[i := x]
    ensures Lookup(Items(slots), i) == slots[i]
  {
  }

  lemma ItemsAppend<T>(slots: seq<Option<T>>, x: T)
    ensures Items(slots + [Some(x)]) == Items(slots)[|slots| := x]
  {
  }

  /** So its counter stays right exactly if the new length does not wrap, or there was nothing
      to drop. */
  lemma PutAtCountsIff<T>(t: Table<T>, room: nat, idx: u64, item: T)
    requires t.Counts() && |t.slots| <= room < USIZE_RANGE
    ensures AfterPutAt(t, room, idx, item).0.Counts() <==> idx + 1 < USIZE_RANGE || Items(t.slots) == map[]
  {
    PutAtIsUpdate(t, room, idx, item);
    OccupiedIsItems(t.slots);
  }

  lemma RemoveIsUpdate<T>(t: Table<T>, idx: u64)
    requires Occupied(t.slots) <= t.numOccupied
    ensures var (t', r) := AfterRemove(t, idx);
      && r == Found(Lookup(Items(t.slots), idx)) && Items(t'.slots) == Items(t.slots) - {idx}
      && (t'.Counts() <==> t.Counts())
  {
    if idx < |t.slots| {
      OccupiedUpdate(t.slots, idx, None);
    } else {
      assert Items(t.slots) - {idx} == Items(t.slots);
    }
  }

  // ---------------------------------------------------------------- runs

  datatype Op<T> = DoPut(entry: T) | DoPutAt(idx: u64, item: T) | DoRemove(at: u64)

  /** A table that operations can leave: it fits the memory and counts no item too few. */
  ghost predicate Reachable<T>(t: Table<T>, room: nat) {
    |t.slots| <= room < USIZE_RANGE && Occupied(t.slots) <= t.numOccupied
  }

  function Step<T>(t: Table<T>, room: nat, op: Op<T>): (r: (Table<T>, Answer<T>))
    requires Reachable(t, room)
    ensures Reachable(r.0, room)
  {
    StepCounts(t, room, op);
    Apply(t, room, op)
  }

  function Apply<T>(t: Table<T>, room: nat, op: Op<T>): (Table<T>, Answer<T>)
    requires Occupied(t.slots) <= t.numOccupied
  {
    match op
    case DoPut(entry) => AfterPut(t, room, entry)
    case DoPutAt(idx, item) => AfterPutAt(t, room, idx, item)
    case DoRemove(idx) => AfterRemove(t, idx)
  }

  /** The operation drops every item without counting them off. */
  predicate Drops<T>(t: Table<T>, op: Op<T>) {
    op.DoPutAt? && op.idx + 1 == USIZE_RANGE && t.numOccupied > 0
  }

  /** How many items the counter counts that are not there. */
  ghost function Stale<T>(t: Table<T>): int {
    t.numOccupied - Occupied(t.slots)
  }

  /** Only dropping makes it count items that are not there, and nothing undoes that. */
  lemma StepCounts<T>(t: Table<T>, room: nat, op: Op<T>)
    requires Reachable(t, room)
    ensures Reachable(Apply(t, room, op).0, room)
    ensures Stale(Apply(t, room, op).0) == if Drops(t, op) then t.numOccupied else Stale(t)
  {
    match op {
      case DoPut(entry) => PutCounts(t, room, entry);
      case DoPutAt(idx, item) => PutAtCounts(t, room, idx, item);
      case DoRemove(idx) =>
        if idx < |t.slots| {
          OccupiedUpdate(t.slots, idx, None);
        }
    }
  }

  lemma PutCounts<T>(t: Table<T>, room: nat, entry: T)
    requires Reachable(t, room)
    ensures var t' := AfterPut(t, room, entry).0; Reachable(t', room) && Stale(t') == Stale(t)
  {
    if t.numOccupied == |t.slots| {
      OccupiedAppend(t.slots, Some(entry));
    } else if FirstFree(t.slots) < |t.slots| {
      OccupiedUpdate(t.slots, FirstFree(t.slots), Some(entry));
    }
  }

  lemma PutAtCounts<T>(t: Table<T>, room: nat, idx: u64, item: T)
    requires Reachable(t, room)
    ensures var t' := AfterPutAt(t, room, idx, item).0;
      Reachable(t', room) && Stale(t') == if idx + 1 == USIZE_RANGE then t.numOccupied else Stale(t)
  {
    if idx < |t.slots| {
      OccupiedUpdate(t.slots, idx, Some(item));
    } else if idx + 1 <= room {
      GrownCounts(t.slots, idx + 1 - |t.slots|);
      OccupiedUpdate(Grown(t.slots, idx + 1 - |t.slots|), idx, Some(item));
    }
  }

  function After<T>(t: Table<T>, room: nat, run: seq<Op<T>>): (r: Table<T>)
    requires Reachable(t, room)
    ensures Reachable(r, room)
    decreases |run|
  {
    if run == [] then t else After(Step(t, room, run[0]).0, room, run[1..])
  }

  ghost predicate DropsNothing<T>(t: Table<T>, room: nat, run: seq<Op<T>>)
    requires Reachable(t, room)
    decreases |run|
  {
    run == [] || (!Drops(t, run[0]) && DropsNothing(Step(t, room, run[0]).0, room, run[1..]))
  }

  /** After any run the counter is the number of items exactly if no operation dropped any. */
  lemma {:induction false} CountsIff<T>(t: Table<T>, room: nat, run: seq<Op<T>>)
    requires Reachable(t, room)
    ensures After(t, room, run).Counts() <==> t.Counts() && DropsNothing(t, room, run)
    decreases |run|
  {
    if run != [] {
      StepCounts(t, room, run[0]);
      CountsIff(Step(t, room, run[0]).0, room, run[1..]);
    }
  }

  /** A put panics exactly if memory runs out or, once items were dropped, whenever every slot
      that is left is taken: the counter then says there is a free one. */
  lemma PutPanicsIff<T>(t: Table<T>, room: nat, entry: T)
    requires Reachable(t, room)
    ensures AfterPut(t, room, entry).1 == Panicked <==>
      if t.numOccupied == |t.slots| then |t.slots| == room else !t.Counts() && Occupied(t.slots) == |t.slots|
  {
    assert FirstFree(t.slots) < |t.slots| <==> Occupied(t.slots) < |t.slots|;
  }

  /** dup3 with the largest descriptor drops every open file and panics; after that no file can
      be opened, and nothing changes, until one is put at an index by dup3 again. */
  lemma {:induction false} DupToLargest<T>(t: Table<T>, room: nat, item: T, run: seq<Op<T>>)
    requires Reachable(t, room) && t.numOccupied > 0 && forall i :: 0 <= i < |run| ==> !run[i].DoPutAt?
    ensures var (t', r) := Step(t, room, DoPutAt(USIZE_RANGE - 1, item));
      && r == Panicked && Items(t'.slots) == map[] && t'.numOccupied == t.numOccupied
      && After(t', room, run) == t'
      && forall entry :: AfterPut(t', room, entry).1 == Panicked
    decreases |run|
  {
    var t' := Step(t, room, DoPutAt(USIZE_RANGE - 1, item)).0;
    NothingOpens(t', room, run);
  }

  lemma {:induction false} NothingOpens<T>(t: Table<T>, room: nat, run: seq<Op<T>>)
    requires Reachable(t, room) && t.slots == [] && t.numOccupied > 0
    requires forall i :: 0 <= i < |run| ==> !run[i].DoPutAt?
    ensures After(t, room, run) == t
    decreases |run|
  {
    if run != [] {
      assert !run[0].DoPutAt?;
      assert Step(t, room, run[0]).0 == t;
      NothingOpens(t, room, run[1..]);
    }
  }

  /** The counter is the number of items. */
  lemma {:induction false} OccupiedIsItems<T>(slots: seq<Option<T>>)
    ensures |Items(slots)| == Occupied(slots)
  {
    if slots == [] {
      assert Items(slots) == map[];
    } else {
      var n := |slots| - 1;
      var front := slots[..n];
      OccupiedIsItems(front);
      assert slots == front + [slots[n]];
      OccupiedAppend(front, slots[n]);
      if slots[n].Some? {
        assert Items(slots) == Items(front)[n := slots[n].value];
      } else {
        assert Items(slots) == Items(front);
      }
    }
  }
}
