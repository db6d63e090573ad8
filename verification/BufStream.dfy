/** The byte stream of drivers/vf2_sd over a card of 512-byte blocks, proved to be a
    flat array with a cursor. */
module BufStreams {
  import opened Bytes
  import opened Disk

  datatype SeekFrom = Start(pos: nat) | Current(delta: int) | End(delta: int)

  class BufStream {
    var offset: nat
    const mmc: BlockDevice

    constructor (device: BlockDevice)
      ensures offset == 0 && mmc == device
    {
      offset := 0;
      mmc := device;
    }

    /** Fills `buf` from the cursor on and moves the cursor past what was read. */
    method Read(buf: array<byte>) returns (n: nat)
      requires mmc.Valid()
      requires buf.Length == 0 || offset + buf.Length <= mmc.capacity * BLOCK_SIZE
      modifies this`offset, buf
      ensures n == buf.Length && offset == old(offset) + n
      ensures n > 0 ==> buf[..] == Flatten(mmc.blocks)[old(offset)..offset]
    {
      var bufLen := buf.Length;
      var pos := offset;
      var readLen := 0;
      while readLen < bufLen
        invariant offset == old(offset)
        invariant 0 <= readLen <= bufLen && pos == offset + readLen
        invariant forall k :: 0 <= k < readLen ==> buf[k] == Flatten(mmc.blocks)[offset + k]
      {
        var blockId := pos / BLOCK_SIZE;
        var blockOffset := pos % BLOCK_SIZE;
        var tmpBuf := mmc.ReadBlock(blockId);
        var copyLen := BLOCK_SIZE - blockOffset;
        copyLen := if copyLen > bufLen - readLen then bufLen - readLen else copyLen;
        BlockInFlat(mmc.blocks, blockId);
        forall k | readLen <= k < readLen + copyLen {
          buf[k] := tmpBuf[blockOffset + (k - readLen)];
        }
        readLen := readLen + copyLen;
        pos := pos + copyLen;
      }
      offset := pos;
      n := readLen;
    }

    /** One turn of the write loop: a whole block is written as it is, a part of one
        after reading the rest of it back. */
    method WritePart(blockId: nat, blockOffset: nat, part: seq<byte>)
      requires mmc.Valid() && blockId < mmc.capacity && blockOffset + |part| <= BLOCK_SIZE
      modifies mmc`blocks
      ensures mmc.Valid()
      ensures Flatten(mmc.blocks) == Splice(Flatten(old(mmc.blocks)), blockId * BLOCK_SIZE + blockOffset, part)
    {
      SpliceInFlat(mmc.blocks, blockId, blockOffset, part);
      if |part| < BLOCK_SIZE {
        var tmpBuf := mmc.ReadBlock(blockId);
        mmc.WriteBlock(blockId, Splice(tmpBuf, blockOffset, part));
      } else {
        assert Splice(mmc.blocks[blockId], blockOffset, part) == part;
        mmc.WriteBlock(blockId, part);
      }
    }

    /** Writes `buf` at the cursor, keeps every byte outside it, and moves the cursor
        past what was written. */
    method Write(buf: seq<byte>) returns (n: nat)
      requires mmc.Valid()
      requires buf == [] || offset + |buf| <= mmc.capacity * BLOCK_SIZE
      modifies this`offset, mmc`blocks
      ensures mmc.Valid() && n == |buf| && offset == old(offset) + n
      ensures Flatten(mmc.blocks) == Overwrite(Flatten(old(mmc.blocks)), old(offset), buf)
    {
      var bufLen := |buf|;
      var pos := offset;
      var writeLen := 0;
      ghost var flat := Flatten(mmc.blocks);
      ghost var now := flat;
      while writeLen < bufLen
        invariant mmc.Valid() && offset == old(offset)
        invariant 0 <= writeLen <= bufLen && pos == offset + writeLen
        invariant now == Flatten(mmc.blocks) && Written(now, flat, offset, buf, writeLen)
      {
        var blockId := pos / BLOCK_SIZE;
        var blockOffset := pos % BLOCK_SIZE;
        var copyLen := BLOCK_SIZE - blockOffset;
        copyLen := if copyLen > bufLen - writeLen then bufLen - writeLen else copyLen;
        assert blockId * BLOCK_SIZE + blockOffset == offset + writeLen;
        WritePart(blockId, blockOffset, buf[writeLen..writeLen + copyLen]);
        ghost var before := now;
        now := Flatten(mmc.blocks);
        WrittenMore(before, now, flat, offset, buf, writeLen, writeLen + copyLen);
        writeLen := writeLen + copyLen;
        pos := pos + copyLen;
      }
      WrittenAll(now, flat, offset, buf);
      offset := pos;
      n := writeLen;
    }

    /** Moves the cursor. A negative target wraps round, as the cast back to an
        unsigned word does; seeking from the end panics. */
    method Seek(to: SeekFrom) returns (at: Option<nat>)
      modifies this`offset
      ensures at == SeekTarget(old(offset), to)
      ensures offset == if at.Some? then at.value else old(offset)
    {
      match to {
        case Start(pos) => offset := pos;
        case Current(delta) => offset := (offset + delta) % USIZE_RANGE;
        case End(_) => return None;
      }
      at := Some(offset);
    }
  }

  /** Where a seek leads. */
  function SeekTarget(offset: nat, to: SeekFrom): Option<nat> {
    match to
    case Start(pos) => Some(pos)
    case Current(delta) => Some((offset + delta) % USIZE_RANGE)
    case End(_) => None
  }

  /** From the start a seek leads to the position given, from the cursor that far on or back,
      modulo 2^64, and from the end nowhere. */
  lemma SeekLeads(offset: nat, to: SeekFrom)
    ensures var at := SeekTarget(offset, to);
      && (at == None <==> to.End?)
      && (to.Start? ==> at == Some(to.pos))
      && (to.Current? ==> at.value < USIZE_RANGE && (offset + to.delta - at.value) % USIZE_RANGE == 0)
      && (to.Current? && 0 <= offset + to.delta < USIZE_RANGE ==> at.value == offset + to.delta)
  {
  }

  datatype StreamOp = Fill(len: nat) | Put(data: seq<byte>) | Move(to: SeekFrom)

  /** The cursor after an operation. */
  function OffsetAfter(offset: nat, op: StreamOp): nat
    requires op.Move? ==> SeekTarget(offset, op.to).Some?
  {
    match op
    case Fill(len) => offset + len
    case Put(data) => offset + |data|
    case Move(to) => SeekTarget(offset, to).value
  }

  /** An operation stays on the card, and does not seek from its end. */
  predicate OpOnCard(size: nat, offset: nat, op: StreamOp) {
    match op
    case Fill(len) => len == 0 || offset + len <= size
    case Put(data) => data == [] || offset + |data| <= size
    case Move(to) => SeekTarget(offset, to).Some?
  }

  predicate OnCard(size: nat, offset: nat, run: seq<StreamOp>)
    decreases |run|
  {
    run == [] || (OpOnCard(size, offset, run[0]) && OnCard(size, OffsetAfter(offset, run[0]), run[1..]))
  }

  /** The cursor after a run. */
  function CursorAfter(size: nat, offset: nat, run: seq<StreamOp>): nat
    requires OnCard(size, offset, run)
    decreases |run|
  {
    if run == [] then offset else CursorAfter(size, OffsetAfter(offset, run[0]), run[1..])
  }

  /** The reads and writes, at absolute positions, that a run comes to. */
  ghost function Requests(size: nat, offset: nat, run: seq<StreamOp>): (r: seq<Request>)
    requires OnCard(size, offset, run)
    ensures AllInRange(r, size)
    decreases |run|
  {
    if run == [] then []
    else
      var rest := Requests(size, OffsetAfter(offset, run[0]), run[1..]);
      match run[0]
      case Fill(len) => [Request.Read(offset, len)] + rest
      case Put(data) => [Request.Write(offset, data)] + rest
      case Move(to) => rest
  }

  /** The card after an operation, and what the operation reads. */
  ghost function FlatAfter(flat: seq<byte>, offset: nat, op: StreamOp): seq<byte>
    requires OpOnCard(|flat|, offset, op)
  {
    if op.Put? then Overwrite(flat, offset, op.data) else flat
  }

  ghost function ReadBy(flat: seq<byte>, offset: nat, op: StreamOp): seq<seq<byte>>
    requires OpOnCard(|flat|, offset, op)
  {
    if !op.Fill? then [] else [if op.len == 0 then [] else flat[offset..offset + op.len]]
  }

  /** `all` is the request of `op` at `offset`, if it makes one, and then `rest`. */
  ghost predicate StartsWith(all: seq<Request>, offset: nat, op: StreamOp, rest: seq<Request>) {
    match op
    case Fill(len) => all != [] && all[0] == Request.Read(offset, len) && all[1..] == rest
    case Put(data) => all != [] && all[0] == Request.Write(offset, data) && all[1..] == rest
    case Move(_) => all == rest
  }

  lemma RequestsNext(size: nat, offset: nat, run: seq<StreamOp>)
    requires OnCard(size, offset, run) && run != []
    ensures StartsWith(Requests(size, offset, run), offset, run[0],
                       Requests(size, OffsetAfter(offset, run[0]), run[1..]))
  {
  }

  /** A run is its first operation and then the rest. */
  lemma RunNext(flat: seq<byte>, offset: nat, run: seq<StreamOp>)
    requires OnCard(|flat|, offset, run) && run != []
    ensures var rest := Requests(|flat|, OffsetAfter(offset, run[0]), run[1..]);
      && |FlatAfter(flat, offset, run[0])| == |flat|
      && After(flat, Requests(|flat|, offset, run)) == After(FlatAfter(flat, offset, run[0]), rest)
      && Replies(flat, Requests(|flat|, offset, run)) ==
           ReadBy(flat, offset, run[0]) + Replies(FlatAfter(flat, offset, run[0]), rest)
  {
    var rest := Requests(|flat|, OffsetAfter(offset, run[0]), run[1..]);
    RequestsNext(|flat|, offset, run);
    OperationFirst(flat, offset, run[0], rest, Requests(|flat|, offset, run));
  }

  lemma OperationFirst(flat: seq<byte>, offset: nat, op: StreamOp, rest: seq<Request>, all: seq<Request>)
    requires OpOnCard(|flat|, offset, op) && AllInRange(rest, |flat|) && AllInRange(all, |flat|)
    requires StartsWith(all, offset, op, rest)
    ensures var flat1 := FlatAfter(flat, offset, op);
      && |flat1| == |flat| && After(flat, all) == After(flat1, rest)
      && Replies(flat, all) == ReadBy(flat, offset, op) + Replies(flat1, rest)
  {
    if !op.Fill? {
      assert [] + Replies(FlatAfter(flat, offset, op), rest) == Replies(FlatAfter(flat, offset, op), rest);
    }
  }

  /** Over any run of seeks, reads and writes the card is the flat array after those
      reads and writes, the bytes read are that array's, and the cursor is where the last
      operation left it. */
  method Drive(stream: BufStream, run: seq<StreamOp>) returns (replies: seq<seq<byte>>)
    requires stream.mmc.Valid()
    requires OnCard(stream.mmc.capacity * BLOCK_SIZE, stream.offset, run)
    modifies stream`offset, stream.mmc`blocks
    ensures stream.mmc.Valid()
    ensures Flatten(stream.mmc.blocks) ==
      After(Flatten(old(stream.mmc.blocks)), Requests(stream.mmc.capacity * BLOCK_SIZE, old(stream.offset), run))
    ensures replies ==
      Replies(Flatten(old(stream.mmc.blocks)), Requests(stream.mmc.capacity * BLOCK_SIZE, old(stream.offset), run))
    ensures stream.offset == CursorAfter(stream.mmc.capacity * BLOCK_SIZE, old(stream.offset), run)
    decreases |run|
  {
    replies := [];
    ghost var flat, offset := Flatten(stream.mmc.blocks), stream.offset;
    if run != [] {
      RunNext(flat, offset, run);
      replies := DriveOne(stream, run[0]);
      var rest := Drive(stream, run[1..]);
      replies := replies + rest;
    }
  }

  method DriveOne(stream: BufStream, op: StreamOp) returns (reply: seq<seq<byte>>)
    requires stream.mmc.Valid() && OpOnCard(stream.mmc.capacity * BLOCK_SIZE, stream.offset, op)
    modifies stream`offset, stream.mmc`blocks
    ensures stream.mmc.Valid()
    ensures stream.offset == OffsetAfter(old(stream.offset), op)
    ensures |Flatten(old(stream.mmc.blocks))| == stream.mmc.capacity * BLOCK_SIZE
    ensures Flatten(stream.mmc.blocks) == FlatAfter(Flatten(old(stream.mmc.blocks)), old(stream.offset), op)
    ensures reply == ReadBy(Flatten(old(stream.mmc.blocks)), old(stream.offset), op)
  {
    reply := [];
    ghost var flat := Flatten(stream.mmc.blocks);
    match op {
      case Fill(len) =>
        var buf := new byte[len];
        var n := stream.Read(buf);
        reply := [buf[..]];
        assert buf[..] == if len == 0 then [] else flat[old(stream.offset)..old(stream.offset) + len];
      case Put(data) =>
        var n := stream.Write(data);
      case Move(to) =>
        var at := stream.Seek(to);
    }
  }
}
