/** Open regular files (common/vfs/vfs, kfile.rs): the metadata every handle of a file
    shares, reading and writing at its position, and listing a directory. */
module KFiles {
  import opened Bytes

  /** What `contains` answers for each access flag. */
  datatype Flags = Flags(rdonly: bool, wronly: bool, rdwr: bool, append: bool)

  /** A real inode: its number and the file system domain that holds it. */
  datatype Inode = Inode(number: u64, domain: nat)

  /** The value of a file's metadata. */
  datatype Meta = Meta(pos: u64, flags: Flags, inode: Inode)

  /** What the file system domain answers: a number of bytes, or an error. */
  datatype Answer = Done(n: u64) | Failed

  datatype SeekFrom = Start(at: u64) | Current(off: int) | End(off: int)

  /** What a call on a file returns. A call that reaches the file system carries the
      request it made there. */
  datatype Reply =
    | Opened(id: u64)
    | Closed
    | Transferred(n: u64)
    | Asked(inode: Inode, offset: u64, len: nat, answer: Answer)
    | Moved(inode: Inode, at: u64)
    | EPERM
    | Invalid
    | FsError(inode: Inode)
    | FlagsSet
    | ToSpecial(file: nat)
    | Swapped
    | Panics

  function Advance(meta: Meta, answer: Answer): Meta {
    if answer.Done? then meta.(pos := (meta.pos + answer.n) % USIZE_RANGE) else meta
  }

  function Transfer(meta: Meta, inode: Inode, len: nat, allowed: bool, answer: Answer): (Meta, Reply) {
    if len == 0 then (meta, Transferred(0))
    else if !allowed then (meta, EPERM)
    else (Advance(meta, answer), Asked(inode, meta.pos, len, answer))
  }

  function SeekTarget(meta: Meta, how: SeekFrom, size: u64): int {
    match how
    case Start(at) => at
    case Current(off) => meta.pos + off
    case End(off) => size + off
  }

  /** Seeking asks for the size first, whatever the seek is relative to. */
  function SeekTo(meta: Meta, inode: Inode, how: SeekFrom, size: Answer): (Meta, Reply) {
    if size.Failed? then (meta, FsError(inode))
    else
      var target := SeekTarget(meta, how, size.n);
      if 0 <= target < USIZE_RANGE then (meta.(pos := target), Moved(inode, target)) else (meta, Invalid)
  }

  /** The metadata record, shared by the file and the storage. */
  class KMeta {
    var pos: u64
    var flags: Flags
    const inode: Inode

    constructor (pos: u64, flags: Flags, inode: Inode)
      ensures Value() == Meta(pos, flags, inode)
    {
      this.pos, this.flags, this.inode := pos, flags, inode;
    }

    function Value(): Meta
      reads this
    {
      Meta(pos, flags, inode)
    }
  }

  class KernelFile {
    const inodeId: u64
    const meta: KMeta
    const inode: Inode

    constructor (inode: Inode, meta: KMeta, inodeId: u64)
      ensures this.inodeId == inodeId && this.meta == meta && this.inode == inode
    {
      this.inodeId, this.meta, this.inode := inodeId, meta, inode;
    }

    method ReadAt(offset: u64, len: nat, answer: Answer) returns (r: Reply)
      ensures r == Transfer(meta.Value().(pos := offset), inode, len, meta.flags.rdonly || meta.flags.rdwr, answer).1
    {
      if len == 0 {
        return Transferred(0);
      }
      if !meta.flags.rdonly && !meta.flags.rdwr {
        return EPERM;
      }
      r := Asked(inode, offset, len, answer);
    }

    method WriteAt(offset: u64, len: nat, answer: Answer) returns (r: Reply)
      ensures r == Transfer(meta.Value().(pos := offset), inode, len, meta.flags.wronly || meta.flags.rdwr, answer).1
    {
      if len == 0 {
        return Transferred(0);
      }
      if !meta.flags.wronly && !meta.flags.rdwr {
        return EPERM;
      }
      r := Asked(inode, offset, len, answer);
    }

    /** Moves the position past what was transferred. */
    method Progress(r: Reply)
      modifies meta
      ensures meta.Value() == if r.Asked? then Advance(old(meta.Value()), r.answer) else old(meta.Value())
    {
      if r.Asked? && r.answer.Done? {
        meta.pos := (meta.pos + r.answer.n) % USIZE_RANGE;
      }
    }

    method Read(len: nat, answer: Answer) returns (r: Reply)
      modifies meta
      ensures (meta.Value(), r) == Transfer(old(meta.Value()), inode, len, old(meta.flags.rdonly || meta.flags.rdwr),
        answer)
    {
      r := ReadAt(meta.pos, len, answer);
      Progress(r);
    }

    method Write(len: nat, answer: Answer) returns (r: Reply)
      modifies meta
      ensures (meta.Value(), r) == Transfer(old(meta.Value()), inode, len, old(meta.flags.wronly || meta.flags.rdwr),
        answer)
    {
      r := WriteAt(meta.pos, len, answer);
      Progress(r);
    }

    method Seek(how: SeekFrom, size: Answer) returns (r: Reply)
      modifies meta
      ensures (meta.Value(), r) == SeekTo(old(meta.Value()), inode, how, size)
    {
      if size.Failed? {
        return FsError(inode);
      }
      var target := SeekTarget(meta.Value(), how, size.n);
      if target < 0 || target >= USIZE_RANGE {
        return Invalid;
      }
      meta.pos := target;
      r := Moved(inode, target);
    }

    method SetOpenFlag(flags: Flags)
      modifies meta
      ensures meta.Value() == old(meta.Value()).(flags := flags)
    {
      meta.flags := flags;
    }
  }
}
