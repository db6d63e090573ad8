/** Loading the segments of an ELF image into an address space, page by page
    (common/task/task, elf.rs). */
module ElfLoad {
  import opened Bytes
  import opened AddressSpace

  datatype ProgramHeader = ProgramHeader(isLoad: bool, read: bool, write: bool, execute: bool,
                                         virtualAddr: u64, memSize: u64, offset: u64, fileSize: u64)

  datatype LoadInfo = LoadInfo(startVaddr: u64, endVaddr: u64, permission: set<Perm>, offset: u64, fileSize: u64)
  {
    /** Page `p` is one the loader visits for this segment. */
    predicate Touches(p: nat) {
      p % FRAME_SIZE == 0 && PageOf(startVaddr) <= p < AlignUp4K(endVaddr)
    }

    /** Byte `a` is backed by the file. */
    predicate Backs(a: nat) {
      startVaddr <= a < startVaddr + fileSize
    }

    /** What is wrong with the segment, in the order the loader finds out. */
    function Fault(inputLen: nat): (f: Option<Fault>)
    {
      if fileSize > SaturatingSub(endVaddr, startVaddr) then Some(InvalidSize)
      else if SaturatingAdd(offset, fileSize) > inputLen then Some(OutOfBound)
      else if fileSize > 0 && endVaddr > USIZE_RANGE - FRAME_SIZE then Some(CopiedSizeMismatch)
      else None
    }
  }

  datatype Fault = InvalidSize | OutOfBound | CopiedSizeMismatch

  datatype LoadResult = Loaded(breakAddr: u64) | Failed(fault: Fault)

  function SaturatingAdd(a: u64, b: u64): u64 {
    if a + b < USIZE_RANGE then a + b else USIZE_RANGE - 1
  }

  function SaturatingSub(a: u64, b: u64): u64 {
    if a >= b then a - b else 0
  }

  /** The segments to load, at their biased addresses. */
  function CollectLoadInfo(headers: seq<ProgramHeader>, bias: u64): seq<LoadInfo> {
    if headers == [] then []
    else (if headers[0].isLoad then [Info(headers[0], bias)] else []) + CollectLoadInfo(headers[1..], bias)
  }

  function Info(ph: ProgramHeader, bias: u64): LoadInfo {
    var startAddr := (ph.virtualAddr + bias) % USIZE_RANGE;
    LoadInfo(startAddr, (startAddr + ph.memSize) % USIZE_RANGE,
             {USER} + (if ph.read then {READ} else {}) + (if ph.write then {WRITE} else {})
                    + (if ph.execute then {EXECUTE} else {}),
             ph.offset, ph.fileSize)
  }

  // ---------------------------------------------------------------- one page

  /** A fresh frame. Callers may not rely on what it holds. */
  method NewFrame() returns (frame: seq<byte>)
    ensures |frame| == FRAME_SIZE
  {
    frame := seq(FRAME_SIZE, _ => 0);
  }

  /** Gives `page` at least the permissions asked for, mapping it if it is not there. */
  method EnsurePage(vm: VmSpace, permission: set<Perm>, page: nat)
    requires vm.Valid() && page % FRAME_SIZE == 0
    modifies vm
    ensures vm.Valid() && vm.perms == Widened(old(vm.perms), permission, page)
    ensures Extends(vm.mem, old(vm.mem))
  {
    var found := vm.Query(page);
    match found {
      case Some(oldPermission) =>
        var merged := oldPermission + permission;
        if merged != oldPermission {
          var ok := vm.Protect(page, merged);
        }
      case None =>
        var frame := NewFrame();
        var ok := vm.MapPage(page, permission, frame);
        assert {} + permission == permission;
        assert forall a :: a in Frame(page, frame) ==> a !in old(vm.mem);
    }
  }

  ghost function Widened(perms: map<nat, set<Perm>>, permission: set<Perm>, page: nat): map<nat, set<Perm>> {
    perms[page := (if page in perms then perms[page] else {}) + permission]
  }

  /** `mem` has every byte of `mem0`, unchanged. */
  ghost predicate Extends(mem: map<nat, byte>, mem0: map<nat, byte>) {
    forall a :: a in mem0 ==> a in mem && mem[a] == mem0[a]
  }

  /** The bytes from `lo` up to `hi` that the segment backs hold the file's bytes; the
      rest of `mem0` is as it was. */
  ghost predicate Copied(info: LoadInfo, input: seq<byte>, lo: nat, hi: nat, mem0: map<nat, byte>, mem: map<nat, byte>)
    requires info.offset + info.fileSize <= |input|
  {
    && (forall a: nat {:trigger a in mem} :: lo <= a < hi && info.Backs(a) ==>
          a in mem && mem[a] == input[info.offset + (a - info.startVaddr)])
    && (forall a: nat {:trigger a in mem} {:trigger a in mem0} :: a in mem0 && !(lo <= a < hi && info.Backs(a)) ==>
          a in mem && mem[a] == mem0[a])
  }

  /** How many of the bytes from `s` up to `e` lie below `page`. */
  function Below(page: int, s: int, e: int): int {
    if page <= s then 0 else if page <= e then page - s else e - s
  }

  lemma CopiedExtended(info: LoadInfo, input: seq<byte>, lo: nat, hi: nat,
                       mem0: map<nat, byte>, mem1: map<nat, byte>, mem2: map<nat, byte>)
    requires info.offset + info.fileSize <= |input|
    requires Extends(mem1, mem0) && Copied(info, input, lo, hi, mem1, mem2)
    ensures Copied(info, input, lo, hi, mem0, mem2)
  {
  }

  lemma CopiedNext(info: LoadInfo, input: seq<byte>, lo: nat, mid: nat, hi: nat,
                   mem0: map<nat, byte>, mem1: map<nat, byte>, mem2: map<nat, byte>)
    requires info.offset + info.fileSize <= |input| && lo <= mid <= hi
    requires Copied(info, input, lo, mid, mem0, mem1) && Copied(info, input, mid, hi, mem1, mem2)
    ensures Copied(info, input, lo, hi, mem0, mem2)
  {
  }

  /** Copies the file bytes that belong on a mapped page. */
  method CopyToPage(vm: VmSpace, info: LoadInfo, input: seq<byte>, page: nat) returns (copied: nat)
    requires vm.Valid() && page in vm.perms
    requires info.offset + info.fileSize <= |input|
    modifies vm`mem
    ensures vm.Valid()
    ensures Copied(info, input, page, page + FRAME_SIZE, old(vm.mem), vm.mem)
    ensures copied == Below(page + FRAME_SIZE, info.startVaddr, info.startVaddr + info.fileSize)
              - Below(page, info.startVaddr, info.startVaddr + info.fileSize)
  {
    var copyStart := Max(page, info.startVaddr);
    var copyEnd := Min(page + FRAME_SIZE, info.startVaddr + info.fileSize);
    copied := 0;
    if copyStart < copyEnd {
      var srcOffset := info.offset + (copyStart - info.startVaddr);
      var len := copyEnd - copyStart;
      OnMappedPage(vm.perms, vm.mem, page, copyStart, copyEnd);
      ghost var mem := vm.mem;
      var ok := vm.WriteBytes(copyStart, input[srcOffset..srcOffset + len]);
      copied := len;
      StoredCopied(info, input, page, copyStart, copyEnd, mem);
    }
  }

  /** A stretch of a mapped page is in memory. */
  lemma OnMappedPage(perms: map<nat, set<Perm>>, mem: map<nat, byte>, page: nat, low: nat, high: nat)
    requires Backed(perms, mem) && page in perms && page <= low && high <= page + FRAME_SIZE
    ensures forall a: nat :: low <= a < high ==> a in mem
  {
    forall a: nat | low <= a < high ensures a in mem {
      SamePage(a, page);
    }
  }

  /** Storing the file bytes of a stretch copies all that a page takes, if the stretch is
      what the page and the segment's file bytes have in common. */
  lemma StoredCopied(info: LoadInfo, input: seq<byte>, page: nat, low: nat, high: nat, mem: map<nat, byte>)
    requires info.offset + info.fileSize <= |input| && low < high
    requires low == Max(page, info.startVaddr) && high == Min(page + FRAME_SIZE, info.startVaddr + info.fileSize)
    requires forall a: nat :: low <= a < high ==> a in mem
    ensures var from := info.offset + (low - info.startVaddr);
      Copied(info, input, page, page + FRAME_SIZE, mem, Stored(mem, low, input[from..from + (high - low)]))
  {
    var from := info.offset + (low - info.startVaddr);
    var data := input[from..from + (high - low)];
    forall a: nat | page <= a < page + FRAME_SIZE && info.Backs(a)
      ensures a in mem && low <= a < high && data[a - low] == input[info.offset + (a - info.startVaddr)]
    {
    }
  }

  // ---------------------------------------------------------------- one segment

  /** The pages from `lo` up to `hi` have gained `permission`; the others are as they
      were. */
  ghost predicate Granted(permission: set<Perm>, lo: nat, hi: nat,
                          perms0: map<nat, set<Perm>>, perms: map<nat, set<Perm>>)
  {
    && (forall p :: p in perms <==> p in perms0 || (p % FRAME_SIZE == 0 && lo <= p < hi))
    && (forall p :: p in perms ==>
          perms[p] == (if p in perms0 then perms0[p] else {}) + (if lo <= p < hi then permission else {}))
  }

  lemma GrantedNext(permission: set<Perm>, lo: nat, page: nat,
                    perms0: map<nat, set<Perm>>, perms: map<nat, set<Perm>>)
    requires lo % FRAME_SIZE == 0 && page % FRAME_SIZE == 0 && lo <= page
    requires forall p :: p in perms0 ==> p % FRAME_SIZE == 0
    requires Granted(permission, lo, page, perms0, perms)
    ensures Granted(permission, lo, page + FRAME_SIZE, perms0, Widened(perms, permission, page))
  {
    var perms' := Widened(perms, permission, page);
    forall p: nat | p % FRAME_SIZE == 0
      ensures page <= p < page + FRAME_SIZE <==> p == page
    {
      SamePage(p, page);
    }
    assert page !in perms0 ==> {} + permission == permission;
  }

  lemma NextPage(page: nat, end: nat)
    requires page % FRAME_SIZE == 0 && end % FRAME_SIZE == 0 && page < end
    ensures page + FRAME_SIZE <= end && (page + FRAME_SIZE) % FRAME_SIZE == 0
  {
  }

  /** All pages from `lo` up to `page` are done: permissions, bytes and count. */
  ghost predicate DoneUpTo(info: LoadInfo, input: seq<byte>, lo: nat, page: nat, copied: int,
                           perms0: map<nat, set<Perm>>, mem0: map<nat, byte>,
                           perms: map<nat, set<Perm>>, mem: map<nat, byte>)
  {
    && info.offset + info.fileSize <= |input|
    && (forall p :: p in perms0 ==> p % FRAME_SIZE == 0)
    && Granted(info.permission, lo, page, perms0, perms)
    && Copied(info, input, lo, page, mem0, mem)
    && copied == Below(page, info.startVaddr, info.startVaddr + info.fileSize)
                   - Below(lo, info.startVaddr, info.startVaddr + info.fileSize)
  }

  /** One turn of the page loop: maps or widens the page and copies the file bytes
      that belong on it. */
  method LoadPage(vm: VmSpace, info: LoadInfo, input: seq<byte>, page: nat, count: nat,
                  ghost lo: nat, ghost perms0: map<nat, set<Perm>>, ghost mem0: map<nat, byte>)
    returns (copied: nat)
    requires vm.Valid() && lo % FRAME_SIZE == 0 && page % FRAME_SIZE == 0 && lo <= page
    requires DoneUpTo(info, input, lo, page, count, perms0, mem0, vm.perms, vm.mem)
    modifies vm
    ensures vm.Valid()
    ensures DoneUpTo(info, input, lo, page + FRAME_SIZE, copied, perms0, mem0, vm.perms, vm.mem)
  {
    GrantedNext(info.permission, lo, page, perms0, vm.perms);
    ghost var before := vm.mem;
    EnsurePage(vm, info.permission, page);
    ghost var mapped := vm.mem;
    var n := CopyToPage(vm, info, input, page);
    CopiedExtended(info, input, page, page + FRAME_SIZE, before, mapped, vm.mem);
    CopiedNext(info, input, lo, page, page + FRAME_SIZE, mem0, before, vm.mem);
    copied := count + n;
  }

  /** Where a loop over the pages from `vaddr` to `endVaddr` stops. */
  function PagesEnd(vaddr: nat, endVaddr: nat): nat {
    if vaddr < endVaddr then endVaddr else vaddr
  }

  /** The page loop. */
  method LoadPages(vm: VmSpace, info: LoadInfo, input: seq<byte>, vaddr: nat, endVaddr: nat)
    returns (copied: nat, ghost end: nat)
    requires vm.Valid() && vaddr % FRAME_SIZE == 0 && endVaddr % FRAME_SIZE == 0
    requires info.offset + info.fileSize <= |input|
    modifies vm
    ensures vm.Valid() && end == PagesEnd(vaddr, endVaddr)
    ensures DoneUpTo(info, input, vaddr, end, copied, old(vm.perms), old(vm.mem), vm.perms, vm.mem)
  {
    copied := 0;
    var page := vaddr;
    ghost var perms0, mem0 := vm.perms, vm.mem;
    while page < endVaddr
      invariant vm.Valid()
      invariant page % FRAME_SIZE == 0 && vaddr <= page && (page == vaddr || page <= endVaddr)
      invariant DoneUpTo(info, input, vaddr, page, copied, perms0, mem0, vm.perms, vm.mem)
    {
      NextPage(page, endVaddr);
      copied := LoadPage(vm, info, input, page, copied, vaddr, perms0, mem0);
      page := page + FRAME_SIZE;
    }
    end := page;
  }

  /** A page range that holds all backed bytes is as good as the whole address space. */
  lemma CopiedWhole(info: LoadInfo, input: seq<byte>, lo: nat, hi: nat, mem0: map<nat, byte>, mem: map<nat, byte>)
    requires info.offset + info.fileSize <= |input| && info.startVaddr + info.fileSize <= USIZE_RANGE
    requires info.fileSize == 0 || (lo <= info.startVaddr && info.startVaddr + info.fileSize <= hi)
    requires Copied(info, input, lo, hi, mem0, mem)
    ensures Copied(info, input, 0, USIZE_RANGE, mem0, mem)
  {
  }

  /** What the count of copied bytes says about the rounded end. */
  lemma CountMatches(s: u64, e: u64, size: u64)
    requires size <= SaturatingSub(e, s)
    ensures var page := PagesEnd(PageOf(s), AlignUp4K(e));
      && (Below(page, s, s + size) - Below(PageOf(s), s, s + size) == size <==>
            size == 0 || e <= USIZE_RANGE - FRAME_SIZE)
      && (size > 0 && e <= USIZE_RANGE - FRAME_SIZE ==> s + size <= AlignUp4K(e) == page)
  {
  }

  /** Loads one segment, or reports its fault. A segment that passes both checks can
      only fail the final count of copied bytes if it ends in the last page of the
      address space, where rounding up wraps. */
  method LoadSegment(vm: VmSpace, info: LoadInfo, input: seq<byte>) returns (fault: Option<Fault>)
    requires vm.Valid() && |input| < USIZE_RANGE / 2
    modifies vm
    ensures vm.Valid()
    ensures fault == info.Fault(|input|)
    ensures fault == None ==>
      && info.offset + info.fileSize <= |input|
      && Granted(info.permission, PageOf(info.startVaddr), AlignUp4K(info.endVaddr), old(vm.perms), vm.perms)
      && Copied(info, input, 0, USIZE_RANGE, old(vm.mem), vm.mem)
  {
    var vaddr := PageOf(info.startVaddr);
    var endVaddr := AlignUp4K(info.endVaddr);
    if info.fileSize > SaturatingSub(info.endVaddr, info.startVaddr) {
      return Some(InvalidSize);
    }
    if SaturatingAdd(info.offset, info.fileSize) > |input| {
      return Some(OutOfBound);
    }
    ghost var end;
    var copied;
    copied, end := LoadPages(vm, info, input, vaddr, endVaddr);
    CountMatches(info.startVaddr, info.endVaddr, info.fileSize);
    if copied != info.fileSize {
      return Some(CopiedSizeMismatch);
    }
    fault := None;
    CopiedWhole(info, input, vaddr, end, old(vm.mem), vm.mem);
  }

  // ---------------------------------------------------------------- all segments

  /** The permissions that the segments touching page `p` ask for, together. */
  ghost function PermissionAt(infos: seq<LoadInfo>, p: nat): set<Perm> {
    if infos == [] then {}
    else
      var last := infos[|infos| - 1];
      PermissionAt(infos[..|infos| - 1], p) + (if last.Touches(p) then last.permission else {})
  }

  lemma {:induction false} UntouchedPermission(infos: seq<LoadInfo>, p: nat)
    requires !TouchedAt(infos, p)
    ensures PermissionAt(infos, p) == {}
  {
    if infos != [] {
      var front := infos[..|infos| - 1];
      assert !infos[|infos| - 1].Touches(p);
      forall i | 0 <= i < |front| ensures !front[i].Touches(p) {
        assert front[i] == infos[i];
      }
      UntouchedPermission(front, p);
    }
  }

  ghost predicate TouchedAt(infos: seq<LoadInfo>, p: nat) {
    exists i :: 0 <= i < |infos| && infos[i].Touches(p)
  }

  /** The file byte that belongs at address `a`: the one the last segment backing `a`
      puts there. */
  ghost function FileByte(infos: seq<LoadInfo>, input: seq<byte>, a: nat): Option<byte>
    requires Sound(infos, input)
  {
    if infos == [] then None
    else
      var last := infos[|infos| - 1];
      if last.Backs(a) then Some(input[last.offset + (a - last.startVaddr)])
      else FileByte(infos[..|infos| - 1], input, a)
  }

  /** Every segment's file range lies in the file. */
  ghost predicate Sound(infos: seq<LoadInfo>, input: seq<byte>) {
    forall i :: 0 <= i < |infos| ==> infos[i].offset + infos[i].fileSize <= |input|
  }

  /** The address space is what loading `infos` makes of an earlier one. */
  ghost predicate IsLoaded(infos: seq<LoadInfo>, input: seq<byte>,
                           perms0: map<nat, set<Perm>>, mem0: map<nat, byte>,
                           perms: map<nat, set<Perm>>, mem: map<nat, byte>)
    requires Sound(infos, input)
  {
    PagesLoaded(infos, perms0, perms) && BytesLoaded(infos, input, mem0, mem)
  }

  ghost predicate PagesLoaded(infos: seq<LoadInfo>, perms0: map<nat, set<Perm>>, perms: map<nat, set<Perm>>) {
    && (forall p :: p in perms <==> p in perms0 || TouchedAt(infos, p))
    && (forall p :: p in perms ==> perms[p] == (if p in perms0 then perms0[p] else {}) + PermissionAt(infos, p))
  }

  ghost predicate BytesLoaded(infos: seq<LoadInfo>, input: seq<byte>, mem0: map<nat, byte>, mem: map<nat, byte>)
    requires Sound(infos, input)
  {
    && (forall a: nat {:trigger a in mem} :: FileByte(infos, input, a).Some? ==>
          a in mem && mem[a] == FileByte(infos, input, a).value)
    && (forall a: nat {:trigger a in mem} {:trigger a in mem0} :: a in mem0 && FileByte(infos, input, a).None? ==>
          a in mem && mem[a] == mem0[a])
  }

  lemma PageNext(infos: seq<LoadInfo>, info: LoadInfo, p: nat)
    ensures TouchedAt(infos + [info], p) <==> TouchedAt(infos, p) || info.Touches(p)
    ensures PermissionAt(infos + [info], p) ==
      PermissionAt(infos, p) + (if info.Touches(p) then info.permission else {})
    ensures !TouchedAt(infos, p) ==> PermissionAt(infos, p) == {}
  {
    TouchedNext(infos, info, p);
    assert (infos + [info])[..|infos|] == infos;
    if !TouchedAt(infos, p) {
      UntouchedPermission(infos, p);
    }
  }

  lemma PagesNext(infos: seq<LoadInfo>, info: LoadInfo, perms0: map<nat, set<Perm>>,
                  perms1: map<nat, set<Perm>>, perms2: map<nat, set<Perm>>)
    requires PagesLoaded(infos, perms0, perms1)
    requires Granted(info.permission, PageOf(info.startVaddr), AlignUp4K(info.endVaddr), perms1, perms2)
    requires forall p :: p in perms1 ==> p % FRAME_SIZE == 0
    ensures PagesLoaded(infos + [info], perms0, perms2)
  {
    forall p: nat
      ensures TouchedAt(infos + [info], p) <==> TouchedAt(infos, p) || info.Touches(p)
      ensures PermissionAt(infos + [info], p) ==
        PermissionAt(infos, p) + (if info.Touches(p) then info.permission else {})
      ensures !TouchedAt(infos, p) ==> PermissionAt(infos, p) == {}
    {
      PageNext(infos, info, p);
    }
  }

  lemma BytesNext(infos: seq<LoadInfo>, info: LoadInfo, input: seq<byte>,
                  mem0: map<nat, byte>, mem1: map<nat, byte>, mem2: map<nat, byte>)
    requires Sound(infos, input) && info.offset + info.fileSize <= |input|
    requires BytesLoaded(infos, input, mem0, mem1)
    requires Copied(info, input, 0, USIZE_RANGE, mem1, mem2)
    requires info.startVaddr + info.fileSize <= USIZE_RANGE
    ensures Sound(infos + [info], input) && BytesLoaded(infos + [info], input, mem0, mem2)
  {
    forall a: nat | FileByte(infos + [info], input, a).Some?
      ensures a in mem2 && mem2[a] == FileByte(infos + [info], input, a).value
    {
      FileByteNext(infos, info, input, a);
      assert info.Backs(a) || (a in mem1 && mem1[a] == FileByte(infos, input, a).value);
    }
    forall a: nat | a in mem0 && FileByte(infos + [info], input, a).None?
      ensures a in mem2 && mem2[a] == mem0[a]
    {
      FileByteNext(infos, info, input, a);
      assert a in mem1 && mem1[a] == mem0[a];
    }
  }

  lemma FileByteNext(infos: seq<LoadInfo>, info: LoadInfo, input: seq<byte>, a: nat)
    requires Sound(infos, input) && info.offset + info.fileSize <= |input|
    ensures Sound(infos + [info], input)
    ensures FileByte(infos + [info], input, a) ==
      if info.Backs(a) then Some(input[info.offset + (a - info.startVaddr)]) else FileByte(infos, input, a)
  {
    var infos' := infos + [info];
    assert infos'[..|infos'| - 1] == infos;
  }

  lemma TouchedNext(infos: seq<LoadInfo>, info: LoadInfo, p: nat)
    ensures TouchedAt(infos + [info], p) <==> TouchedAt(infos, p) || info.Touches(p)
  {
    var infos' := infos + [info];
    assert infos'[|infos|] == info;
    if TouchedAt(infos, p) {
      var i :| 0 <= i < |infos| && infos[i].Touches(p);
      assert infos'[i].Touches(p);
    }
  }

  /** One more segment. */
  lemma LoadedNext(infos: seq<LoadInfo>, i: nat, input: seq<byte>,
                   perms0: map<nat, set<Perm>>, mem0: map<nat, byte>,
                   perms1: map<nat, set<Perm>>, mem1: map<nat, byte>,
                   perms2: map<nat, set<Perm>>, mem2: map<nat, byte>)
    requires i < |infos| && Sound(infos[..i], input) && infos[i].offset + infos[i].fileSize <= |input|
    requires IsLoaded(infos[..i], input, perms0, mem0, perms1, mem1)
    requires Granted(infos[i].permission, PageOf(infos[i].startVaddr), AlignUp4K(infos[i].endVaddr), perms1, perms2)
    requires forall p :: p in perms1 ==> p % FRAME_SIZE == 0
    requires Copied(infos[i], input, 0, USIZE_RANGE, mem1, mem2)
    requires infos[i].startVaddr + infos[i].fileSize <= USIZE_RANGE
    ensures Sound(infos[..i + 1], input)
    ensures IsLoaded(infos[..i + 1], input, perms0, mem0, perms2, mem2)
  {
    assert infos[..i + 1] == infos[..i] + [infos[i]];
    PagesNext(infos[..i], infos[i], perms0, perms1, perms2);
    BytesNext(infos[..i], infos[i], input, mem0, mem1, mem2);
  }

  ghost function BreakOf(infos: seq<LoadInfo>): (r: u64) {
    if infos == [] then 0 else Max(BreakOf(infos[..|infos| - 1]), infos[|infos| - 1].endVaddr)
  }

  /** The fault of the first segment that has one. */
  ghost function FirstFault(infos: seq<LoadInfo>, inputLen: nat): Option<Fault> {
    if infos == [] then None
    else if infos[0].Fault(inputLen).Some? then infos[0].Fault(inputLen)
    else FirstFault(infos[1..], inputLen)
  }

  lemma OneSegment(infos: seq<LoadInfo>, i: nat, inputLen: nat)
    requires i < |infos|
    ensures BreakOf(infos[..i + 1]) == Max(BreakOf(infos[..i]), infos[i].endVaddr)
    ensures FirstFault(infos[i..], inputLen) ==
      if infos[i].Fault(inputLen).Some? then infos[i].Fault(inputLen) else FirstFault(infos[i + 1..], inputLen)
  {
    assert infos[..i + 1][..i] == infos[..i];
    assert infos[i..][0] == infos[i] && infos[i..][1..] == infos[i + 1..];
  }

  /** One turn of the loop over the segments. */
  method LoadNext(vm: VmSpace, infos: seq<LoadInfo>, i: nat, input: seq<byte>,
                  ghost perms0: map<nat, set<Perm>>, ghost mem0: map<nat, byte>) returns (fault: Option<Fault>)
    requires vm.Valid() && |input| < USIZE_RANGE / 2 && i < |infos|
    requires Sound(infos[..i], input) && IsLoaded(infos[..i], input, perms0, mem0, vm.perms, vm.mem)
    modifies vm
    ensures vm.Valid() && fault == infos[i].Fault(|input|)
    ensures fault.None? ==>
      Sound(infos[..i + 1], input) && IsLoaded(infos[..i + 1], input, perms0, mem0, vm.perms, vm.mem)
  {
    ghost var perms1, mem1 := vm.perms, vm.mem;
    fault := LoadSegment(vm, infos[i], input);
    if fault.None? {
      LoadedNext(infos, i, input, perms0, mem0, perms1, mem1, vm.perms, vm.mem);
    }
  }

  /** The loop over the segments. */
  method LoadAll(vm: VmSpace, infos: seq<LoadInfo>, input: seq<byte>) returns (r: LoadResult)
    requires vm.Valid() && |input| < USIZE_RANGE / 2
    modifies vm
    ensures vm.Valid()
    ensures FirstFault(infos, |input|) == if r.Failed? then Some(r.fault) else None
    ensures r.Loaded? ==> r.breakAddr == BreakOf(infos) && Sound(infos, input)
    ensures r.Loaded? ==> IsLoaded(infos, input, old(vm.perms), old(vm.mem), vm.perms, vm.mem)
  {
    var breakAddr: u64 := 0;
    ghost var perms0, mem0 := vm.perms, vm.mem;
    for i := 0 to |infos|
      invariant vm.Valid()
      invariant FirstFault(infos[i..], |input|) == FirstFault(infos, |input|)
      invariant breakAddr == BreakOf(infos[..i])
      invariant Sound(infos[..i], input) && IsLoaded(infos[..i], input, perms0, mem0, vm.perms, vm.mem)
    {
      OneSegment(infos, i, |input|);
      breakAddr := Max(breakAddr, infos[i].endVaddr);
      var fault := LoadNext(vm, infos, i, input, perms0, mem0);
      if fault.Some? {
        return Failed(fault.value);
      }
    }
    assert infos[..|infos|] == infos;
    r := Loaded(breakAddr);
  }

  // ---------------------------------------------------------------- what the program headers say

  /** Where the segment of a header starts and ends; sums wrap like the machine's. */
  function StartOf(ph: ProgramHeader, bias: u64): u64 {
    (ph.virtualAddr + bias) % USIZE_RANGE
  }

  function EndOf(ph: ProgramHeader, bias: u64): u64 {
    (ph.virtualAddr + bias + ph.memSize) % USIZE_RANGE
  }

  /** `p` is a page of a LOAD segment, in the file or not. */
  predicate HasPage(ph: ProgramHeader, bias: u64, p: nat) {
    ph.isLoad && p % FRAME_SIZE == 0 && PageOf(StartOf(ph, bias)) <= p < AlignUp4K(EndOf(ph, bias))
  }

  /** Address `a` is one that a LOAD segment takes from the file. */
  predicate Takes(ph: ProgramHeader, bias: u64, a: nat) {
    ph.isLoad && StartOf(ph, bias) <= a < StartOf(ph, bias) + ph.fileSize
  }

  /** A segment is for the user; the other permissions are those of its flags. */
  predicate AsksFor(ph: ProgramHeader, x: Perm) {
    match x
    case READ => ph.read
    case WRITE => ph.write
    case EXECUTE => ph.execute
    case USER => true
  }

  ghost predicate SomeHasPage(headers: seq<ProgramHeader>, bias: u64, p: nat) {
    exists i :: 0 <= i < |headers| && HasPage(headers[i], bias, p)
  }

  ghost predicate SomeAsksFor(headers: seq<ProgramHeader>, bias: u64, p: nat, x: Perm) {
    exists i :: 0 <= i < |headers| && HasPage(headers[i], bias, p) && AsksFor(headers[i], x)
  }

  ghost predicate SomeTakes(headers: seq<ProgramHeader>, bias: u64, a: nat) {
    exists i :: 0 <= i < |headers| && Takes(headers[i], bias, a)
  }

  /** Header `i` is the last one to take `a` from the file. */
  ghost predicate LastToTake(headers: seq<ProgramHeader>, bias: u64, i: nat, a: nat) {
    && i < |headers| && Takes(headers[i], bias, a)
    && forall j :: i < j < |headers| ==> !Takes(headers[j], bias, a)
  }

  /** Exactly the pages of LOAD segments were added, and each page gained exactly the
      permissions that a LOAD header over it asks for. */
  ghost predicate PagesAsHeadersSay(headers: seq<ProgramHeader>, bias: u64,
                                    perms0: map<nat, set<Perm>>, perms: map<nat, set<Perm>>)
  {
    && (forall p: nat :: p in perms <==> p in perms0 || SomeHasPage(headers, bias, p))
    && (forall p: nat, x: Perm {:trigger x in perms[p]} {:trigger SomeAsksFor(headers, bias, p, x)} :: p in perms ==>
         (x in perms[p] <==> (p in perms0 && x in perms0[p]) || SomeAsksFor(headers, bias, p, x)))
  }

  /** Byte `k` of a LOAD header's part of the file is at its virtual address plus bias and
      `k`, unless a later header puts its own there; other memory is as it was. */
  ghost predicate BytesAsHeadersSay(headers: seq<ProgramHeader>, bias: u64, input: seq<byte>,
                                    mem0: map<nat, byte>, mem: map<nat, byte>)
  {
    && (forall i: nat, k: nat {:trigger ByteAsHeaderSays(headers, bias, input, mem, i, k)} ::
         i < |headers| && k < headers[i].fileSize && LastToTake(headers, bias, i, StartOf(headers[i], bias) + k) ==>
           ByteAsHeaderSays(headers, bias, input, mem, i, k))
    && (forall a: nat {:trigger a in mem} {:trigger a in mem0} ::
         a in mem0 && !SomeTakes(headers, bias, a) ==> a in mem && mem[a] == mem0[a])
  }

  ghost predicate ByteAsHeaderSays(headers: seq<ProgramHeader>, bias: u64, input: seq<byte>, mem: map<nat, byte>,
                                   i: nat, k: nat)
    requires i < |headers|
  {
    var a := StartOf(headers[i], bias) + k;
    headers[i].offset + k < |input| && a in mem && mem[a] == input[headers[i].offset + k]
  }

  /** `b` is the greatest end of a LOAD segment, or zero if there is none. */
  ghost predicate IsBreak(headers: seq<ProgramHeader>, bias: u64, b: nat) {
    && (forall i :: 0 <= i < |headers| && headers[i].isLoad ==> EndOf(headers[i], bias) <= b)
    && (b == 0 || exists i :: 0 <= i < |headers| && headers[i].isLoad && EndOf(headers[i], bias) == b)
  }

  /** A segment with more bytes in the file than in memory. */
  predicate TooManyBytes(ph: ProgramHeader, bias: u64) {
    ph.fileSize > 0 && StartOf(ph, bias) + ph.fileSize > EndOf(ph, bias)
  }

  /** One whose bytes lie past the end of the file. */
  predicate PastTheFile(ph: ProgramHeader, inputLen: nat) {
    ph.offset + ph.fileSize > inputLen
  }

  /** One with bytes in the file that ends in the last page of the address space. */
  predicate AtTheTop(ph: ProgramHeader, bias: u64) {
    ph.fileSize > 0 && EndOf(ph, bias) > USIZE_RANGE - FRAME_SIZE
  }

  predicate CannotLoad(ph: ProgramHeader, bias: u64, inputLen: nat) {
    ph.isLoad && (TooManyBytes(ph, bias) || PastTheFile(ph, inputLen) || AtTheTop(ph, bias))
  }

  /** The header cannot be loaded, and this is the error. */
  predicate FailsWith(ph: ProgramHeader, bias: u64, inputLen: nat, fault: Fault) {
    ph.isLoad &&
    match fault
    case InvalidSize => TooManyBytes(ph, bias)
    case OutOfBound => !TooManyBytes(ph, bias) && PastTheFile(ph, inputLen)
    case CopiedSizeMismatch => !TooManyBytes(ph, bias) && !PastTheFile(ph, inputLen) && AtTheTop(ph, bias)
  }

  /** The first LOAD header that cannot be loaded fails with `fault`. */
  ghost predicate FirstFailsWith(headers: seq<ProgramHeader>, bias: u64, inputLen: nat, fault: Fault) {
    exists i: nat :: i < |headers| && FailsWith(headers[i], bias, inputLen, fault) &&
      NoneFails(headers, i, bias, inputLen)
  }

  /** Each of the first `n` headers can be loaded, or need not. */
  ghost predicate NoneFails(headers: seq<ProgramHeader>, n: nat, bias: u64, inputLen: nat)
    requires n <= |headers|
  {
    forall i :: 0 <= i < n ==> !CannotLoad(headers[i], bias, inputLen)
  }

  lemma AddTwice(a: nat, b: nat, c: nat)
    ensures ((a + b) % USIZE_RANGE + c) % USIZE_RANGE == (a + b + c) % USIZE_RANGE
  {
  }

  /** One header, as the loader sees it. */
  lemma HeaderInfo(ph: ProgramHeader, bias: u64, inputLen: nat, fault: Fault)
    requires ph.isLoad && inputLen < USIZE_RANGE / 2
    ensures var info := Info(ph, bias);
      && info.startVaddr == StartOf(ph, bias) && info.endVaddr == EndOf(ph, bias)
      && (forall p: nat :: info.Touches(p) <==> HasPage(ph, bias, p))
      && (forall a: nat :: info.Backs(a) <==> Takes(ph, bias, a))
      && (forall x: Perm :: x in info.permission <==> AsksFor(ph, x))
      && info.offset == ph.offset && info.fileSize == ph.fileSize
      && (info.Fault(inputLen) == Some(fault) <==> FailsWith(ph, bias, inputLen, fault))
      && (info.Fault(inputLen) == None <==> !CannotLoad(ph, bias, inputLen))
  {
    AddTwice(ph.virtualAddr, bias, ph.memSize);
  }

  /** The last header, if it is a LOAD header, gives the last segment. */
  lemma {:induction false} CollectLast(headers: seq<ProgramHeader>, bias: u64)
    requires headers != []
    ensures var last := headers[|headers| - 1];
      CollectLoadInfo(headers, bias) ==
        CollectLoadInfo(headers[..|headers| - 1], bias) + (if last.isLoad then [Info(last, bias)] else [])
  {
    if |headers| > 1 {
      var front := headers[..|headers| - 1];
      assert front[1..] == headers[1..][..|headers| - 2];
      CollectLast(headers[1..], bias);
    } else {
      assert headers[..0] == [] && headers[1..] == [];
    }
  }

  lemma SomeHasPageLast(headers: seq<ProgramHeader>, bias: u64, p: nat)
    requires headers != []
    ensures SomeHasPage(headers, bias, p) <==>
      SomeHasPage(headers[..|headers| - 1], bias, p) || HasPage(headers[|headers| - 1], bias, p)
  {
    var front := headers[..|headers| - 1];
    if SomeHasPage(front, bias, p) {
      var i :| 0 <= i < |front| && HasPage(front[i], bias, p);
      assert HasPage(headers[i], bias, p);
    }
    if SomeHasPage(headers, bias, p) && !HasPage(headers[|headers| - 1], bias, p) {
      var i :| 0 <= i < |headers| && HasPage(headers[i], bias, p);
      assert front[i] == headers[i];
    }
  }

  lemma SomeAsksForLast(headers: seq<ProgramHeader>, bias: u64, p: nat, x: Perm)
    requires headers != []
    ensures var last := headers[|headers| - 1];
      SomeAsksFor(headers, bias, p, x) <==>
        SomeAsksFor(headers[..|headers| - 1], bias, p, x) || (HasPage(last, bias, p) && AsksFor(last, x))
  {
    var front, last := headers[..|headers| - 1], headers[|headers| - 1];
    if SomeAsksFor(front, bias, p, x) {
      var i :| 0 <= i < |front| && HasPage(front[i], bias, p) && AsksFor(front[i], x);
      assert HasPage(headers[i], bias, p) && AsksFor(headers[i], x);
    }
    if SomeAsksFor(headers, bias, p, x) && !(HasPage(last, bias, p) && AsksFor(last, x)) {
      var i :| 0 <= i < |headers| && HasPage(headers[i], bias, p) && AsksFor(headers[i], x);
      assert front[i] == headers[i];
    }
  }

  lemma {:induction false} PageOfHeaders(headers: seq<ProgramHeader>, bias: u64, p: nat, x: Perm)
    ensures TouchedAt(CollectLoadInfo(headers, bias), p) <==> SomeHasPage(headers, bias, p)
    ensures x in PermissionAt(CollectLoadInfo(headers, bias), p) <==> SomeAsksFor(headers, bias, p, x)
    decreases |headers|
  {
    if headers != [] {
      var front, last := headers[..|headers| - 1], headers[|headers| - 1];
      PageOfHeaders(front, bias, p, x);
      CollectLast(headers, bias);
      SomeHasPageLast(headers, bias, p);
      SomeAsksForLast(headers, bias, p, x);
      if last.isLoad {
        PageNext(CollectLoadInfo(front, bias), Info(last, bias), p);
        HeaderInfo(last, bias, 0, InvalidSize);
      } else {
        assert CollectLoadInfo(front, bias) + [] == CollectLoadInfo(front, bias);
      }
    }
  }

  lemma {:induction false} SoundFront(infos: seq<LoadInfo>, rest: seq<LoadInfo>, input: seq<byte>)
    requires Sound(infos + rest, input)
    ensures Sound(infos, input)
  {
    forall i | 0 <= i < |infos| ensures infos[i].offset + infos[i].fileSize <= |input| {
      assert (infos + rest)[i] == infos[i];
    }
  }

  /** `b` is the byte of the file that belongs at `a`: there is one if some header takes `a`,
      and it is the last such header's. */
  ghost predicate IsByteAt(headers: seq<ProgramHeader>, bias: u64, input: seq<byte>, a: nat, b: Option<byte>) {
    && (b.Some? <==> SomeTakes(headers, bias, a))
    && forall i: nat :: LastToTake(headers, bias, i, a) ==> IsByteOf(headers[i], bias, input, a, b)
  }

  ghost predicate IsByteOf(ph: ProgramHeader, bias: u64, input: seq<byte>, a: nat, b: Option<byte>) {
    var n := ph.offset + (a - StartOf(ph, bias));
    0 <= n < |input| && b == Some(input[n])
  }

  lemma ByteAtNext(headers: seq<ProgramHeader>, bias: u64, input: seq<byte>, a: nat, b: Option<byte>, b': Option<byte>)
    requires headers != [] && IsByteAt(headers[..|headers| - 1], bias, input, a, b)
    requires var last := headers[|headers| - 1];
      if Takes(last, bias, a) then IsByteOf(last, bias, input, a, b') else b' == b
    ensures IsByteAt(headers, bias, input, a, b')
  {
    var front, last := headers[..|headers| - 1], headers[|headers| - 1];
    SomeTakesNext(headers, bias, a);
    forall i: nat | LastToTake(headers, bias, i, a) ensures IsByteOf(headers[i], bias, input, a, b') {
      if i < |front| {
        assert headers[i] == front[i] && !Takes(last, bias, a);
        LastToTakeFront(headers, bias, i, a);
      }
    }
  }

  lemma SomeTakesNext(headers: seq<ProgramHeader>, bias: u64, a: nat)
    requires headers != []
    ensures SomeTakes(headers, bias, a) <==>
      SomeTakes(headers[..|headers| - 1], bias, a) || Takes(headers[|headers| - 1], bias, a)
  {
    var front := headers[..|headers| - 1];
    if SomeTakes(front, bias, a) {
      var i :| 0 <= i < |front| && Takes(front[i], bias, a);
      assert Takes(headers[i], bias, a);
    }
    if SomeTakes(headers, bias, a) && !Takes(headers[|headers| - 1], bias, a) {
      var i :| 0 <= i < |headers| && Takes(headers[i], bias, a);
      assert front[i] == headers[i];
    }
  }

  lemma LastToTakeFront(headers: seq<ProgramHeader>, bias: u64, i: nat, a: nat)
    requires i < |headers| - 1 && LastToTake(headers, bias, i, a)
    ensures LastToTake(headers[..|headers| - 1], bias, i, a)
  {
  }

  lemma LastByte(last: ProgramHeader, bias: u64, infos: seq<LoadInfo>, input: seq<byte>, a: nat)
    requires last.isLoad && Sound(infos + [Info(last, bias)], input) && Sound(infos, input)
    ensures var b := FileByte(infos + [Info(last, bias)], input, a);
      if Takes(last, bias, a) then IsByteOf(last, bias, input, a, b) else b == FileByte(infos, input, a)
  {
    assert (infos + [Info(last, bias)])[|infos|] == Info(last, bias);
    FileByteNext(infos, Info(last, bias), input, a);
    HeaderInfo(last, bias, 0, InvalidSize);
  }

  lemma {:induction false} ByteOfHeaders(headers: seq<ProgramHeader>, bias: u64, input: seq<byte>, a: nat)
    requires Sound(CollectLoadInfo(headers, bias), input)
    ensures IsByteAt(headers, bias, input, a, FileByte(CollectLoadInfo(headers, bias), input, a))
    decreases |headers|
  {
    if headers != [] {
      var front, last := headers[..|headers| - 1], headers[|headers| - 1];
      var infos := CollectLoadInfo(front, bias);
      CollectLast(headers, bias);
      SoundFront(infos, if last.isLoad then [Info(last, bias)] else [], input);
      ByteOfHeaders(front, bias, input, a);
      if last.isLoad {
        LastByte(last, bias, infos, input, a);
      } else {
        assert infos + [] == infos;
      }
      ByteAtNext(headers, bias, input, a, FileByte(infos, input, a),
                 FileByte(CollectLoadInfo(headers, bias), input, a));
    }
  }

  lemma {:induction false} BreakOfHeaders(headers: seq<ProgramHeader>, bias: u64)
    ensures IsBreak(headers, bias, BreakOf(CollectLoadInfo(headers, bias)))
    decreases |headers|
  {
    if headers != [] {
      var front, last := headers[..|headers| - 1], headers[|headers| - 1];
      var infos := CollectLoadInfo(front, bias);
      BreakOfHeaders(front, bias);
      CollectLast(headers, bias);
      assert forall i :: 0 <= i < |front| ==> front[i] == headers[i];
      if last.isLoad {
        HeaderInfo(last, bias, 0, InvalidSize);
        assert (infos + [Info(last, bias)])[..|infos|] == infos;
      } else {
        assert infos + [] == infos;
      }
    }
  }

  lemma {:induction false} FaultOfHeaders(headers: seq<ProgramHeader>, bias: u64, inputLen: nat, fault: Fault)
    requires inputLen < USIZE_RANGE / 2
    ensures FirstFault(CollectLoadInfo(headers, bias), inputLen) == Some(fault) <==>
      FirstFailsWith(headers, bias, inputLen, fault)
    ensures FirstFault(CollectLoadInfo(headers, bias), inputLen) == None <==>
      NoneFails(headers, |headers|, bias, inputLen)
    decreases |headers|
  {
    if headers != [] {
      var first, rest := headers[0], headers[1..];
      FaultOfHeaders(rest, bias, inputLen, fault);
      FirstFailsNext(headers, bias, inputLen, fault);
      if first.isLoad {
        HeaderInfo(first, bias, inputLen, fault);
        assert ([Info(first, bias)] + CollectLoadInfo(rest, bias))[1..] == CollectLoadInfo(rest, bias);
      } else {
        assert [] + CollectLoadInfo(rest, bias) == CollectLoadInfo(rest, bias);
      }
    }
  }

  lemma FirstFailsNext(headers: seq<ProgramHeader>, bias: u64, inputLen: nat, fault: Fault)
    requires headers != []
    ensures FirstFailsWith(headers, bias, inputLen, fault) <==>
      if CannotLoad(headers[0], bias, inputLen) then FailsWith(headers[0], bias, inputLen, fault)
      else FirstFailsWith(headers[1..], bias, inputLen, fault)
    ensures NoneFails(headers, |headers|, bias, inputLen) <==>
      !CannotLoad(headers[0], bias, inputLen) && NoneFails(headers[1..], |headers| - 1, bias, inputLen)
  {
    var rest := headers[1..];
    forall n: nat | n <= |rest|
      ensures NoneFails(headers, n + 1, bias, inputLen) <==>
        !CannotLoad(headers[0], bias, inputLen) && NoneFails(rest, n, bias, inputLen)
    {
      NoneFailsNext(headers, n, bias, inputLen);
    }
    if CannotLoad(headers[0], bias, inputLen) && FailsWith(headers[0], bias, inputLen, fault) {
      assert NoneFails(headers, 0, bias, inputLen);
    } else if FirstFailsWith(headers, bias, inputLen, fault) {
      var i: nat :| i < |headers| && FailsWith(headers[i], bias, inputLen, fault) &&
        NoneFails(headers, i, bias, inputLen);
      assert i > 0 && headers[i] == rest[i - 1] && NoneFails(headers, i - 1 + 1, bias, inputLen);
    }
    if !CannotLoad(headers[0], bias, inputLen) && FirstFailsWith(rest, bias, inputLen, fault) {
      var i: nat :| i < |rest| && FailsWith(rest[i], bias, inputLen, fault) && NoneFails(rest, i, bias, inputLen);
      assert headers[i + 1] == rest[i] && NoneFails(headers, i + 1, bias, inputLen);
    }
  }

  lemma NoneFailsNext(headers: seq<ProgramHeader>, n: nat, bias: u64, inputLen: nat)
    requires n < |headers|
    ensures NoneFails(headers, n + 1, bias, inputLen) <==>
      !CannotLoad(headers[0], bias, inputLen) && NoneFails(headers[1..], n, bias, inputLen)
  {
    assert forall i :: 0 <= i < n ==> headers[1..][i] == headers[i + 1];
    forall i | 0 < i < n + 1 ensures headers[i] == headers[1..][i - 1] {
    }
  }

  /** What loading the segments of some headers makes of an address space, by the fields of
      the headers. */
  lemma {:induction false} LoadedAsHeadersSay(headers: seq<ProgramHeader>, bias: u64, input: seq<byte>,
                                              perms0: map<nat, set<Perm>>, mem0: map<nat, byte>,
                                              perms: map<nat, set<Perm>>, mem: map<nat, byte>)
    requires Sound(CollectLoadInfo(headers, bias), input)
    requires IsLoaded(CollectLoadInfo(headers, bias), input, perms0, mem0, perms, mem)
    ensures PagesAsHeadersSay(headers, bias, perms0, perms)
    ensures BytesAsHeadersSay(headers, bias, input, mem0, mem)
  {
    PagesAsSaid(headers, bias, perms0, perms);
    BytesAsSaid(headers, bias, input, mem0, mem);
  }

  lemma {:induction false} PagesAsSaid(headers: seq<ProgramHeader>, bias: u64,
                                       perms0: map<nat, set<Perm>>, perms: map<nat, set<Perm>>)
    requires PagesLoaded(CollectLoadInfo(headers, bias), perms0, perms)
    ensures PagesAsHeadersSay(headers, bias, perms0, perms)
  {
    forall p: nat ensures p in perms <==> p in perms0 || SomeHasPage(headers, bias, p) {
      PageOfHeaders(headers, bias, p, USER);
    }
    forall p: nat, x: Perm | p in perms
      ensures x in perms[p] <==> (p in perms0 && x in perms0[p]) || SomeAsksFor(headers, bias, p, x)
    {
      PageOfHeaders(headers, bias, p, x);
    }
  }

  lemma {:induction false} BytesAsSaid(headers: seq<ProgramHeader>, bias: u64, input: seq<byte>,
                                       mem0: map<nat, byte>, mem: map<nat, byte>)
    requires Sound(CollectLoadInfo(headers, bias), input)
    requires BytesLoaded(CollectLoadInfo(headers, bias), input, mem0, mem)
    ensures BytesAsHeadersSay(headers, bias, input, mem0, mem)
  {
    forall i: nat, k: nat {:trigger ByteAsHeaderSays(headers, bias, input, mem, i, k)} |
      i < |headers| && k < headers[i].fileSize && LastToTake(headers, bias, i, StartOf(headers[i], bias) + k)
      ensures ByteAsHeaderSays(headers, bias, input, mem, i, k)
    {
      ByteOfHeaders(headers, bias, input, StartOf(headers[i], bias) + k);
    }
    forall a: nat | a in mem0 && !SomeTakes(headers, bias, a)
      ensures a in mem && mem[a] == mem0[a]
    {
      ByteOfHeaders(headers, bias, input, a);
    }
  }

  /** Loads every segment, or reports the first fault. */
  method LoadToVmSpace(vm: VmSpace, headers: seq<ProgramHeader>, bias: u64, input: seq<byte>) returns (r: LoadResult)
    requires vm.Valid() && |input| < USIZE_RANGE / 2
    modifies vm
    ensures vm.Valid()
    ensures r.Failed? <==> FirstFault(CollectLoadInfo(headers, bias), |input|).Some?
    ensures r.Failed? ==> Some(r.fault) == FirstFault(CollectLoadInfo(headers, bias), |input|)
    ensures r.Loaded? ==>
      && r.breakAddr == BreakOf(CollectLoadInfo(headers, bias))
      && Sound(CollectLoadInfo(headers, bias), input)
      && IsLoaded(CollectLoadInfo(headers, bias), input, old(vm.perms), old(vm.mem), vm.perms, vm.mem)
    ensures r.Loaded? <==> NoneFails(headers, |headers|, bias, |input|)
    ensures r.Failed? ==> FirstFailsWith(headers, bias, |input|, r.fault)
    ensures r.Loaded? ==>
      && IsBreak(headers, bias, r.breakAddr)
      && PagesAsHeadersSay(headers, bias, old(vm.perms), vm.perms)
      && BytesAsHeadersSay(headers, bias, input, old(vm.mem), vm.mem)
  {
    var infos := CollectLoadInfo(headers, bias);
    r := LoadAll(vm, infos, input);
    FaultOfHeaders(headers, bias, |input|, if r.Failed? then r.fault else InvalidSize);
    if r.Loaded? {
      BreakOfHeaders(headers, bias);
      LoadedAsHeadersSay(headers, bias, input, old(vm.perms), old(vm.mem), vm.perms, vm.mem);
    }
  }

  lemma {:induction false} DisjointFileByte(infos: seq<LoadInfo>, input: seq<byte>, i: nat, k: nat)
    requires Sound(infos, input) && i < |infos| && k < infos[i].fileSize
    requires forall j, a :: 0 <= j < |infos| && j != i && infos[i].Backs(a) ==> !infos[j].Backs(a)
    ensures FileByte(infos, input, infos[i].startVaddr + k) == Some(input[infos[i].offset + k])
    decreases |infos|
  {
    var front := infos[..|infos| - 1];
    assert infos[i].Backs(infos[i].startVaddr + k);
    if i < |infos| - 1 {
      assert front[i] == infos[i];
      DisjointFileByte(front, input, i, k);
    }
  }

  /** When no other segment backs its bytes, a segment's file bytes are in memory where
      its header says, even if segments share pages. */
  lemma {:induction false} DisjointSegmentsLoaded(infos: seq<LoadInfo>, input: seq<byte>,
                                                  mem0: map<nat, byte>, mem: map<nat, byte>, i: nat, k: nat)
    requires Sound(infos, input) && BytesLoaded(infos, input, mem0, mem) && i < |infos| && k < infos[i].fileSize
    requires forall j, a :: 0 <= j < |infos| && j != i && infos[i].Backs(a) ==> !infos[j].Backs(a)
    ensures infos[i].startVaddr + k in mem && mem[infos[i].startVaddr + k] == input[infos[i].offset + k]
  {
    DisjointFileByte(infos, input, i, k);
    assert (infos[i].startVaddr + k) in mem;
  }

  /** A byte that the file backs lies below the break. */
  lemma {:induction false} BackedBelowBreak(infos: seq<LoadInfo>, input: seq<byte>, a: nat)
    requires Sound(infos, input) && FileByte(infos, input, a).Some?
    requires forall i :: 0 <= i < |infos| ==> infos[i].Fault(|input|) == None
    ensures a < BreakOf(infos)
  {
    var front, last := infos[..|infos| - 1], infos[|infos| - 1];
    if !last.Backs(a) {
      BackedBelowBreak(front, input, a);
    }
  }

  lemma {:induction false} NoFault(infos: seq<LoadInfo>, inputLen: nat, i: nat)
    requires FirstFault(infos, inputLen) == None && i < |infos|
    ensures infos[i].Fault(inputLen) == None
  {
    if i > 0 {
      NoFault(infos[1..], inputLen, i - 1);
    }
  }

  /** The segment passes both checks, has file bytes, and ends in the last page of the
      address space, where rounding its end up wraps to zero. */
  predicate EndsAtTheTop(info: LoadInfo, inputLen: nat) {
    && info.startVaddr + info.fileSize <= info.endVaddr && info.offset + info.fileSize <= inputLen
    && info.fileSize > 0 && info.endVaddr > USIZE_RANGE - FRAME_SIZE
  }

  /** Loading ends with the copied-size mismatch exactly if the first faulty segment is
      one that ends there. */
  lemma {:induction false} MismatchIff(infos: seq<LoadInfo>, inputLen: nat)
    requires inputLen < USIZE_RANGE - 1
    ensures FirstFault(infos, inputLen) == Some(CopiedSizeMismatch) <==>
      exists i :: 0 <= i < |infos| && EndsAtTheTop(infos[i], inputLen) &&
        forall j :: 0 <= j < i ==> infos[j].Fault(inputLen) == None
  {
    if infos != [] && infos[0].Fault(inputLen) == None {
      MismatchIff(infos[1..], inputLen);
      if FirstFault(infos, inputLen) == Some(CopiedSizeMismatch) {
        var i :| 0 <= i < |infos[1..]| && EndsAtTheTop(infos[1..][i], inputLen) &&
          forall j :: 0 <= j < i ==> infos[1..][j].Fault(inputLen) == None;
        assert EndsAtTheTop(infos[i + 1], inputLen);
        assert forall j :: 0 < j < i + 1 ==> infos[j] == infos[1..][j - 1];
      }
      forall i | 0 <= i < |infos| && EndsAtTheTop(infos[i], inputLen) &&
        forall j :: 0 <= j < i ==> infos[j].Fault(inputLen) == None
        ensures FirstFault(infos, inputLen) == Some(CopiedSizeMismatch)
      {
        assert i > 0 && infos[1..][i - 1] == infos[i];
        assert forall j :: 0 <= j < i - 1 ==> infos[1..][j] == infos[j + 1];
      }
    } else if infos != [] && EndsAtTheTop(infos[0], inputLen) {
      assert FirstFault(infos, inputLen) == Some(CopiedSizeMismatch);
    }
  }

  /** One byte, the last but one of the address space: all its bytes are in the file,
      and yet it cannot be loaded. */
  lemma MismatchAtTheTop(permission: set<Perm>)
    ensures FirstFault([LoadInfo(USIZE_RANGE - 2, USIZE_RANGE - 1, permission, 0, 1)], 1) == Some(CopiedSizeMismatch)
  {
    var info := LoadInfo(USIZE_RANGE - 2, USIZE_RANGE - 1, permission, 0, 1);
    assert [info][0] == info;
  }

  /** The count of copied bytes can only disagree with the file size for a segment
      with file bytes that ends in the last page of the address space. */
  lemma {:induction false} MismatchOnlyAtTheTop(infos: seq<LoadInfo>, inputLen: nat)
    requires forall i :: 0 <= i < |infos| && infos[i].fileSize > 0 ==> infos[i].endVaddr <= USIZE_RANGE - FRAME_SIZE
    ensures FirstFault(infos, inputLen) != Some(CopiedSizeMismatch)
    decreases |infos|
  {
    if infos != [] {
      MismatchOnlyAtTheTop(infos[1..], inputLen);
    }
  }
}
