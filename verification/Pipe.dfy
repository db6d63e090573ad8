/** Pipes (common/vfs, pipe.rs): a ring buffer that readers and writers take turns
    at, proved to be a queue that loses, invents and reorders nothing. */
module Pipes {
  import opened Bytes

  /** The index `i` places after `head` on a ring of `size` places. */
  function Slot(head: nat, i: nat, size: nat): (r: nat)
    requires head < size && i <= size
    ensures r < size
  {
    if head + i < size then head + i else head + i - size
  }

  lemma SlotIsMod(head: nat, size: nat)
    requires head < size
    ensures (head + 1) % size == if size == 1 then 0 else Slot(head, 1, size)
  {
    if head + 1 == size {
      assert size % size == 0;
    }
  }

  /** The first `n` bytes on the ring from `head` on. */
  function Ring(buf: seq<byte>, head: nat, n: nat): (r: seq<byte>)
    requires head < |buf| && n <= |buf|
    ensures |r| == n
  {
    seq(n, i requires 0 <= i < n => buf[Slot(head, i, |buf|)])
  }

  /** How many bytes lie between two places. */
  function Distance(head: nat, tail: nat, size: nat): (r: nat)
    requires head < size && tail < size
    ensures r < size && tail == Slot(head, r, size)
  {
    if head <= tail then tail - head else size - head + tail
  }

  class PipeInodeData {
    const buf: array<byte>
    var head: nat
    var tail: nat

    ghost predicate Valid()
      reads this
    {
      head < buf.Length && tail < buf.Length
    }

    /** The bytes waiting, oldest first. */
    ghost function Contents(): (r: seq<byte>)
      requires Valid()
      reads this, buf
      ensures |r| == Distance(head, tail, buf.Length)
    {
      Ring(buf[..], head, Distance(head, tail, buf.Length))
    }

    constructor (size: nat)
      requires size > 0
      ensures Valid() && buf.Length == size && Contents() == [] && fresh(buf)
    {
      buf := new byte[size](_ => 0);
      head, tail := 0, 0;
    }

    method IsEmpty() returns (r: bool)
      requires Valid()
      ensures r == (Contents() == [])
    {
      r := head == tail;
    }

    method IsFull() returns (r: bool)
      requires Valid()
      ensures r == (|Contents()| == buf.Length - 1)
    {
      SlotIsMod(tail, buf.Length);
      r := (tail + 1) % buf.Length == head;
    }

    /** The bytes that can be read and those that can be written always add up to one
        less than the size of the ring. */
    method AvailableRead() returns (n: nat)
      requires Valid()
      ensures n == |Contents()|
    {
      n := if head <= tail then tail - head else buf.Length - head + tail;
    }

    method AvailableWrite() returns (n: nat)
      requires Valid()
      ensures n + |Contents()| == buf.Length - 1
    {
      n := if head <= tail then buf.Length - tail + head - 1 else head - tail - 1;
    }

    /** Appends as much of `data` as there is room for. */
    method Write(data: seq<byte>) returns (count: nat)
      requires Valid()
      modifies this`tail, buf
      ensures Valid() && count == Min(|data|, buf.Length - 1 - |old(Contents())|)
      ensures Contents() == old(Contents()) + data[..count]
    {
      count := 0;
      ghost var before := Contents();
      var full := IsFull();
      while !full && count < |data|
        invariant Valid() && count <= |data|
        invariant full == (|Contents()| == buf.Length - 1)
        invariant Contents() == before + data[..count]
      {
        WriteOne(data[count]);
        assert data[..count + 1] == data[..count] + [data[count]];
        count := count + 1;
        full := IsFull();
      }
    }

    /** One turn of the write loop. */
    method WriteOne(x: byte)
      requires Valid() && |Contents()| < buf.Length - 1
      modifies this`tail, buf
      ensures Valid() && Contents() == old(Contents()) + [x]
    {
      buf[tail] := x;
      SlotIsMod(tail, buf.Length);
      tail := (tail + 1) % buf.Length;
    }

    /** Takes the oldest bytes into `out[lo..hi]`, as many as there are and fit. */
    method Read(out: array<byte>, lo: nat, hi: nat) returns (count: nat)
      requires Valid() && lo <= hi <= out.Length && out != buf
      modifies this`head, out
      ensures Valid() && count == Min(hi - lo, |old(Contents())|)
      ensures Contents() == old(Contents())[count..]
      ensures out[..] == Splice(old(out[..]), lo, old(Contents())[..count])
    {
      count := 0;
      ghost var before := Contents();
      ghost var out0 := out[..];
      var empty := IsEmpty();
      while !empty && count < hi - lo
        invariant Valid() && count <= hi - lo && count <= |before|
        invariant empty == (Contents() == [])
        invariant Contents() == before[count..]
        invariant Written(out[..], out0, lo, before, count)
      {
        var x := ReadOne();
        assert x == before[count];
        WrittenNext(out[..], out0, lo, before, count);
        ghost var next := out[..][lo + count := x];
        out[lo + count] := x;
        assert out[..] == next;
        count := count + 1;
        empty := IsEmpty();
      }
      WrittenPart(out[..], out0, lo, before, count);
    }

    /** One turn of the read loop. */
    method ReadOne() returns (x: byte)
      requires Valid() && Contents() != []
      modifies this`head
      ensures Valid() && [x] + Contents() == old(Contents())
    {
      x := buf[head];
      SlotIsMod(head, buf.Length);
      head := (head + 1) % buf.Length;
    }
  }

  // ---------------------------------------------------------------- the pipe as a queue

  /** What a pipe is to its users: the bytes in flight and which ends are open. */
  datatype PipeState = PipeState(size: nat, queue: seq<byte>, writer: bool, reader: bool) {
    ghost predicate Valid() {
      |queue| < size
    }
  }

  /** One turn at the pipe: a read or write call gets the lock once, or an end closes. */
  datatype Turn = ReadTurn(len: nat) | WriteTurn(data: seq<byte>) | CloseWriter | CloseReader

  /** How a turn ends: the call returns, with the bytes it moved, or it yields and will
      try again. */
  datatype Result = Return(moved: seq<byte>) | Yield

  function Take(s: PipeState, t: Turn): (r: (PipeState, Result)) {
    match t
    case ReadTurn(len) =>
      if len == 0 then (s, Return([]))
      else if s.queue == [] then (s, if s.writer then Yield else Return([]))
      else
        var n := Min(len, |s.queue|);
        (s.(queue := s.queue[n..]), Return(s.queue[..n]))
    case WriteTurn(data) =>
      if data == [] then (s, Return([]))
      else if |s.queue| + 1 >= s.size then (s, if s.reader then Yield else Return([]))
      else
        var n := Min(|data|, s.size - 1 - |s.queue|);
        (s.(queue := s.queue + data[..n]), Return(data[..n]))
    case CloseWriter => (s.(writer := false), Return([]))
    case CloseReader => (s.(reader := false), Return([]))
  }

  datatype PollEvent = IN | OUT | HUP | ERR

  class Pipe {
    const data: PipeInodeData
    var writerAlive: bool
    var readerAlive: bool

    ghost predicate Valid()
      reads this, data
    {
      data.Valid()
    }

    ghost function State(): PipeState
      requires Valid()
      reads this, data, data.buf
    {
      PipeState(data.buf.Length, data.Contents(), writerAlive, readerAlive)
    }

    /** A new pipe with both ends open. */
    constructor (size: nat)
      requires size > 0
      ensures Valid() && State() == PipeState(size, [], true, true)
      ensures fresh(data) && fresh(data.buf)
    {
      data := new PipeInodeData(size);
      writerAlive, readerAlive := true, true;
    }

    method Read(out: array<byte>) returns (r: Result)
      requires Valid() && out != data.buf
      modifies data`head, out
      ensures Valid()
      ensures Take(old(State()), ReadTurn(out.Length)) == (State(), r)
      ensures r == Yield <==> out.Length > 0 && old(State()).queue == [] && writerAlive
      ensures r.Return? ==>
        && r.moved == old(State()).queue[..Min(out.Length, |old(State()).queue|)]
        && State().queue == old(State()).queue[|r.moved|..]
        && out[..|r.moved|] == r.moved && out[|r.moved|..] == old(out[|r.moved|..])
      ensures r == Yield ==> out[..] == old(out[..])
    {
      if out.Length == 0 {
        return Return([]);
      }
      var available := data.AvailableRead();
      if available == 0 {
        r := if !writerAlive then Return([]) else Yield;
      } else {
        var min := Min(available, out.Length);
        ghost var queue := data.Contents();
        var count := data.Read(out, 0, min);
        assert out[..count] == queue[..min];
        r := Return(out[..count]);
      }
    }

    method Write(bytes: seq<byte>) returns (r: Result)
      requires Valid()
      modifies data`tail, data.buf
      ensures Valid()
      ensures Take(old(State()), WriteTurn(bytes)) == (State(), r)
      ensures r == Yield <==> bytes != [] && |old(State()).queue| == State().size - 1 && readerAlive
      ensures r.Return? ==>
        && r.moved == bytes[..Min(|bytes|, State().size - 1 - |old(State()).queue|)]
        && State().queue == old(State()).queue + r.moved
    {
      if bytes == [] {
        return Return([]);
      }
      var available := data.AvailableWrite();
      if available == 0 {
        r := if !readerAlive then Return([]) else Yield;
      } else {
        var min := Min(available, |bytes|);
        var count := data.Write(bytes[..min]);
        assert bytes[..min][..count] == bytes[..min];
        r := Return(bytes[..count]);
      }
    }

    /** What a poll finds ready. Readiness to read and to write is told only to callers
        who ask for it, a missing other end to everyone. */
    method Poll(event: set<PollEvent>) returns (res: set<PollEvent>)
      requires Valid()
      ensures IN in res <==> IN in event && State().queue != []
      ensures OUT in res <==> OUT in event && |State().queue| + 1 < State().size
      ensures HUP in res <==> readerAlive && !writerAlive
      ensures ERR in res <==> !readerAlive && writerAlive
    {
      res := {};
      if IN in event {
        var r := data.AvailableRead();
        res := res + (if r > 0 then {IN} else {});
      }
      if OUT in event {
        var w := data.AvailableWrite();
        res := res + (if w > 0 then {OUT} else {});
      }
      if readerAlive && !writerAlive {
        res := res + {HUP};
      }
      if !readerAlive && writerAlive {
        res := res + {ERR};
      }
    }
  }

  // ---------------------------------------------------------------- one turn

  /** A read for at least one byte takes the oldest bytes, as many as wait and fit, and
      leaves the rest. It yields exactly if nothing waits and a writer is left. */
  lemma ReadTakesOldest(s: PipeState, len: nat)
    requires s.Valid() && len > 0
    ensures var (s', r) := Take(s, ReadTurn(len));
      var n := Min(len, |s.queue|);
      && (r == Yield <==> s.queue == [] && s.writer)
      && (r == Yield ==> s' == s)
      && (r.Return? ==> r.moved == s.queue[..n] && s' == PipeState(s.size, s.queue[n..], s.writer, s.reader))
  {
    assert s.queue == [] ==> s.queue[..0] == s.queue && s.queue[0..] == s.queue;
  }

  /** A write of at least one byte appends the first bytes, as many as there is room for. It
      yields exactly if the ring is full and a reader is left. */
  lemma WriteAppendsFirst(s: PipeState, data: seq<byte>)
    requires s.Valid() && data != []
    ensures var (s', r) := Take(s, WriteTurn(data));
      var n := Min(|data|, s.size - 1 - |s.queue|);
      && (r == Yield <==> |s.queue| == s.size - 1 && s.reader)
      && (r == Yield ==> s' == s)
      && (r.Return? ==> r.moved == data[..n] && s' == PipeState(s.size, s.queue + data[..n], s.writer, s.reader))
  {
    assert s.queue + [] == s.queue;
  }

  /** Empty calls return at once, and closing an end changes nothing but that end. */
  lemma EmptyAndCloseTurns(s: PipeState)
    ensures Take(s, ReadTurn(0)) == (s, Return([])) && Take(s, WriteTurn([])) == (s, Return([]))
    ensures Take(s, CloseWriter).0 == PipeState(s.size, s.queue, false, s.reader)
    ensures Take(s, CloseReader).0 == PipeState(s.size, s.queue, s.writer, false)
  {
  }

  // ---------------------------------------------------------------- every interleaving

  ghost function After(s: PipeState, run: seq<Turn>): PipeState
    decreases |run|
  {
    if run == [] then s else After(Take(s, run[0]).0, run[1..])
  }

  /** The bytes the read turns of a run delivered, in order. */
  ghost function Delivered(s: PipeState, run: seq<Turn>): seq<byte>
    decreases |run|
  {
    if run == [] then []
    else
      var (s', r) := Take(s, run[0]);
      (if run[0].ReadTurn? && r.Return? then r.moved else []) + Delivered(s', run[1..])
  }

  /** The bytes the write turns of a run accepted, in order. */
  ghost function Accepted(s: PipeState, run: seq<Turn>): seq<byte>
    decreases |run|
  {
    if run == [] then []
    else
      var (s', r) := Take(s, run[0]);
      (if run[0].WriteTurn? && r.Return? then r.moved else []) + Accepted(s', run[1..])
  }

  lemma TurnMoves(s: PipeState, t: Turn)
    requires s.Valid()
    ensures var (s', r) := Take(s, t);
      s'.Valid() && (if t.ReadTurn? && r.Return? then r.moved else []) + s'.queue
                      == s.queue + (if t.WriteTurn? && r.Return? then r.moved else [])
  {
  }

  lemma Chain<T>(d: seq<T>, dr: seq<T>, last: seq<T>, mid: seq<T>, first: seq<T>, a: seq<T>, ar: seq<T>)
    requires d + mid == first + a && dr + last == mid + ar
    ensures (d + dr) + last == first + (a + ar)
  {
    assert (d + dr) + last == d + (dr + last);
    assert d + (mid + ar) == (d + mid) + ar;
    assert (first + a) + ar == first + (a + ar);
  }

  /** Whatever way readers and writers interleave, what was delivered followed by what
      is in flight is what was in flight followed by what was accepted, and the ring
      never overfills. */
  lemma {:induction false} NothingLost(s: PipeState, run: seq<Turn>)
    requires s.Valid()
    ensures After(s, run).Valid()
    ensures Delivered(s, run) + After(s, run).queue == s.queue + Accepted(s, run)
    decreases |run|
  {
    if run != [] {
      var (s', r) := Take(s, run[0]);
      NothingLost(s', run[1..]);
      var d := if run[0].ReadTurn? && r.Return? then r.moved else [];
      var a := if run[0].WriteTurn? && r.Return? then r.moved else [];
      TurnMoves(s, run[0]);
      Chain(d, Delivered(s', run[1..]), After(s', run[1..]).queue, s'.queue, s.queue, a, Accepted(s', run[1..]));
    } else {
      assert s.queue + [] == s.queue;
    }
  }

  /** How many turns of a run read at least one byte, if one waits. */
  function Reads(run: seq<Turn>): nat {
    if run == [] then 0 else (if run[0].ReadTurn? && run[0].len > 0 then 1 else 0) + Reads(run[1..])
  }

  /** Each such turn brings readers at least one byte further: by as many reads as `n`, however
      small they are and whatever else happens, the oldest `n` bytes are delivered. */
  lemma {:induction false} ReadsDeliver(s: PipeState, run: seq<Turn>, n: nat)
    requires s.Valid() && n <= |s.queue| && Reads(run) >= n
    ensures |Delivered(s, run)| >= n && Delivered(s, run)[..n] == s.queue[..n]
  {
    NothingLost(s, run);
    DeliveredCount(s, run, n);
    assert Delivered(s, run)[..n] == (Delivered(s, run) + After(s, run).queue)[..n];
    assert (s.queue + Accepted(s, run))[..n] == s.queue[..n];
  }

  lemma {:induction false} DeliveredCount(s: PipeState, run: seq<Turn>, n: nat)
    requires s.Valid() && n <= |s.queue| && Reads(run) >= n
    ensures |Delivered(s, run)| >= n
    decreases |run|
  {
    if n > 0 {
      var (s', r) := Take(s, run[0]);
      TurnMoves(s, run[0]);
      if run[0].ReadTurn? && run[0].len > 0 {
        ReadTakesOldest(s, run[0].len);
        DeliveredCount(s', run[1..], Max(0, n - |r.moved|));
      } else {
        DeliveredCount(s', run[1..], n);
      }
    }
  }

  /** A read for at least one byte that returns none means end of file: no writer is
      left and everything ever accepted was delivered. */
  lemma {:induction false} EndOfFile(size: nat, run: seq<Turn>, len: nat)
    requires size > 0 && len > 0
    requires var s := After(PipeState(size, [], true, true), run); Take(s, ReadTurn(len)).1 == Return([])
    ensures var s0 := PipeState(size, [], true, true);
      !After(s0, run).writer && Delivered(s0, run) == Accepted(s0, run)
  {
    NothingLost(PipeState(size, [], true, true), run);
    var s0 := PipeState(size, [], true, true);
    var s := After(s0, run);
    assert Delivered(s0, run) + [] == Delivered(s0, run) && [] + Accepted(s0, run) == Accepted(s0, run);
    assert |s.queue[..Min(len, |s.queue|)]| == Min(len, |s.queue|);
  }
}
