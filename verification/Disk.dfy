/** Block devices, the flat array of bytes they stand for, and what a run of reads
    and writes means on that array. */
module Disk {
  import opened Bytes

  const U32_RANGE := 0x1_0000_0000

  /** A device of whole blocks, addressed by a 32-bit block number. */
  class BlockDevice {
    const capacity: nat
    var blocks: seq<seq<byte>>

    ghost predicate Valid()
      reads this
    {
      |blocks| == capacity <= U32_RANGE && WholeBlocks(blocks)
    }

    constructor (content: seq<seq<byte>>)
      requires |content| <= U32_RANGE && WholeBlocks(content)
      ensures Valid() && blocks == content && capacity == |content|
    {
      capacity := |content|;
      blocks := content;
    }

    method ReadBlock(id: nat) returns (data: seq<byte>)
      requires Valid() && id < capacity
      ensures data == blocks[id]
    {
      data := blocks[id];
    }

    method WriteBlock(id: nat, data: seq<byte>)
      requires Valid() && id < capacity && |data| == BLOCK_SIZE
      modifies this`blocks
      ensures Valid() && blocks == old(blocks)[id := data]
    {
      blocks := blocks[id := data];
    }
  }

  ghost predicate WholeBlocks(blocks: seq<seq<byte>>) {
    forall b :: 0 <= b < |blocks| ==> |blocks[b]| == BLOCK_SIZE
  }

  /** The blocks laid end to end. */
  ghost function Flatten(blocks: seq<seq<byte>>): (r: seq<byte>)
    requires WholeBlocks(blocks)
    ensures |r| == |blocks| * BLOCK_SIZE
  {
    seq(|blocks| * BLOCK_SIZE, i requires 0 <= i < |blocks| * BLOCK_SIZE => blocks[i / BLOCK_SIZE][i % BLOCK_SIZE])
  }

  /** Block `b` occupies bytes `b * BLOCK_SIZE` and on of the flat array. */
  lemma BlockInFlat(blocks: seq<seq<byte>>, b: nat)
    requires WholeBlocks(blocks) && b < |blocks|
    ensures Flatten(blocks)[b * BLOCK_SIZE..(b + 1) * BLOCK_SIZE] == blocks[b]
  {
    forall j | 0 <= j < BLOCK_SIZE
      ensures Flatten(blocks)[b * BLOCK_SIZE + j] == blocks[b][j]
    {
    }
  }

  /** Changing some bytes of one block is the same splice of the flat array. */
  lemma {:induction false} SpliceInFlat(blocks: seq<seq<byte>>, b: nat, offset: nat, data: seq<byte>)
    requires WholeBlocks(blocks) && b < |blocks| && offset + |data| <= BLOCK_SIZE
    ensures Flatten(blocks[b := Splice(blocks[b], offset, data)]) ==
      Splice(Flatten(blocks), b * BLOCK_SIZE + offset, data)
  {
    var l := Flatten(blocks[b := Splice(blocks[b], offset, data)]);
    var r := Splice(Flatten(blocks), b * BLOCK_SIZE + offset, data);
    forall i | 0 <= i < |l|
      ensures l[i] == r[i]
    {
      if i / BLOCK_SIZE == b {
        assert i == b * BLOCK_SIZE + i % BLOCK_SIZE;
      } else {
        assert r[i] == Flatten(blocks)[i];
      }
    }
  }

  datatype Request =
    | Read(from: nat, len: nat)
    | Write(at: nat, data: seq<byte>)
  {
    ghost predicate InRange(size: nat) {
      match this
      case Read(from, len) => len == 0 || from + len <= size
      case Write(at, data) => data == [] || at + |data| <= size
    }

    /** This request changes byte `i`. */
    ghost predicate Covers(i: nat) {
      Write? && at <= i < at + |data|
    }
  }

  ghost predicate AllInRange(run: seq<Request>, size: nat) {
    forall k :: 0 <= k < |run| ==> run[k].InRange(size)
  }

  /** The array after a run of requests. */
  ghost function After(disk: seq<byte>, run: seq<Request>): (r: seq<byte>)
    requires AllInRange(run, |disk|)
    ensures |r| == |disk|
    decreases |run|
  {
    if run == [] then disk
    else
      var disk' := if run[0].Write? then Overwrite(disk, run[0].at, run[0].data) else disk;
      After(disk', run[1..])
  }

  /** What the reads of a run return, in order. */
  ghost function Replies(disk: seq<byte>, run: seq<Request>): seq<seq<byte>>
    requires AllInRange(run, |disk|)
    decreases |run|
  {
    if run == [] then []
    else
      match run[0]
      case Read(from, len) => [if len == 0 then [] else disk[from..from + len]] + Replies(disk, run[1..])
      case Write(at, data) => Replies(Overwrite(disk, at, data), run[1..])
  }

  /** Byte `i` as the last write of the run that covers it left it. */
  ghost function LastWritten(disk: seq<byte>, run: seq<Request>, i: nat): byte
    requires i < |disk|
  {
    if run == [] then disk[i]
    else
      var last := run[|run| - 1];
      if last.Covers(i) then last.data[i - last.at] else LastWritten(disk, run[..|run| - 1], i)
  }

  lemma {:induction false} AfterAppend(disk: seq<byte>, run: seq<Request>, last: Request)
    requires AllInRange(run, |disk|) && last.InRange(|disk|)
    ensures AllInRange(run + [last], |disk|)
    ensures After(disk, run + [last]) ==
      if last.Write? then Overwrite(After(disk, run), last.at, last.data) else After(disk, run)
    decreases |run|
  {
    if run == [] {
      assert run + [last] == [last];
      assert After(disk, [last]) == if last.Write? then Overwrite(disk, last.at, last.data) else disk;
    } else {
      var disk' := if run[0].Write? then Overwrite(disk, run[0].at, run[0].data) else disk;
      assert (run + [last])[1..] == run[1..] + [last];
      AfterAppend(disk', run[1..], last);
    }
  }

  /** Every byte of the array is what the last write that covers it put there, and
      its initial value when none does. */
  lemma {:induction false} AfterIsLastWritten(disk: seq<byte>, run: seq<Request>, i: nat)
    requires AllInRange(run, |disk|) && i < |disk|
    ensures After(disk, run)[i] == LastWritten(disk, run, i)
    decreases |run|
  {
    if run != [] {
      var front, last := run[..|run| - 1], run[|run| - 1];
      assert run == front + [last];
      AfterAppend(disk, front, last);
      AfterIsLastWritten(disk, front, i);
    }
  }

  /** The replies of a run are cut out of the array as the requests before each
      read left it. */
  lemma {:induction false} ReadAfterRun(disk: seq<byte>, run: seq<Request>, from: nat, len: nat)
    requires AllInRange(run, |disk|) && 0 < len && from + len <= |disk|
    ensures AllInRange(run + [Read(from, len)], |disk|)
    ensures Replies(disk, run + [Read(from, len)]) == Replies(disk, run) + [After(disk, run)[from..from + len]]
    decreases |run|
  {
    var longer := run + [Read(from, len)];
    if run == [] {
      assert longer == [Read(from, len)] && longer[1..] == [];
      assert Replies(disk, longer) == [disk[from..from + len]] + Replies(disk, longer[1..]);
    } else {
      var disk' := if run[0].Write? then Overwrite(disk, run[0].at, run[0].data) else disk;
      assert longer[0] == run[0] && longer[1..] == run[1..] + [Read(from, len)];
      ReadAfterRun(disk', run[1..], from, len);
    }
  }
}
