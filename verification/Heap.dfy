/** Where stack and heap go, and how brk grows the heap (common/task/task, elf.rs:355-378
    and task.rs:257-288; common/syscall/syscall, mm.rs:14-28). */
module Heap {
  import opened Bytes
  import opened AddressSpace
  import opened ElfLoad

  const USER_DATA: set<Perm> := {READ, WRITE, USER}

  /** Fresh frames for an area of `size` bytes. */
  method NewFrames(size: nat) returns (frames: seq<byte>)
    requires size % FRAME_SIZE == 0
    ensures |frames| == size
  {
    frames := [];
    for i := 0 to size / FRAME_SIZE
      invariant |frames| == i * FRAME_SIZE
    {
      var frame := NewFrame();
      frames := frames + frame;
    }
  }

  // ---------------------------------------------------------------- placing stack and heap

  /** The lowest stack address above a break address, and the stack's top, which is where
      the heap starts. Sums wrap around like the machine's. */
  function StackRange(breakAddr: u64, stackSize: u64): (u64, u64) {
    var low := (AlignUp4K((breakAddr + FRAME_SIZE) % USIZE_RANGE) + FRAME_SIZE) % USIZE_RANGE;
    (low, (low + stackSize) % USIZE_RANGE)
  }

  /** Break, gap and stack fit the address space. */
  predicate StackFits(breakAddr: u64, stackSize: u64) {
    breakAddr + 3 * FRAME_SIZE + stackSize <= USIZE_RANGE
  }

  /** The stack lies above the break with two free pages between, and ends above its
      start, exactly if all of it fits. */
  lemma StackAboveBreak(breakAddr: u64, stackSize: u64)
    requires stackSize > 0 && stackSize % FRAME_SIZE == 0
    ensures var (low, top) := StackRange(breakAddr, stackSize);
      breakAddr < low < top && low == AlignUp4K(breakAddr) + 2 * FRAME_SIZE <==> StackFits(breakAddr, stackSize)
  {
    if StackFits(breakAddr, stackSize) {
      StackPages(breakAddr, stackSize);
    } else {
      var (low, top) := StackRange(breakAddr, stackSize);
      if breakAddr < low == AlignUp4K(breakAddr) + 2 * FRAME_SIZE {
        AlignedSum(AlignUp4K(breakAddr), 2 * FRAME_SIZE);
        FitsIfAbove(breakAddr, stackSize, low);
      }
    }
  }

  /** A stack from `low`, two pages above a break, ends above its start only if all of it
      fits. */
  lemma FitsIfAbove(breakAddr: u64, stackSize: u64, low: u64)
    requires low % FRAME_SIZE == 0 && stackSize % FRAME_SIZE == 0 && breakAddr + 2 * FRAME_SIZE <= low
    ensures low < (low + stackSize) % USIZE_RANGE ==> StackFits(breakAddr, stackSize)
  {
    AlignedSum(low, stackSize);
    LastPage(low + stackSize);
    if low + stackSize >= USIZE_RANGE {
      assert (low + stackSize) % USIZE_RANGE == low + stackSize - USIZE_RANGE;
    }
  }

  lemma AlignUpShift(a: u64)
    requires a + FRAME_SIZE <= USIZE_RANGE - FRAME_SIZE
    ensures AlignUp4K(a + FRAME_SIZE) == AlignUp4K(a) + FRAME_SIZE
  {
    AlignedSum(AlignUp4K(a), FRAME_SIZE);
    OnePage(AlignUp4K(a + FRAME_SIZE), AlignUp4K(a) + FRAME_SIZE);
  }

  /** Two page addresses less than a page apart are the same. */
  lemma OnePage(p: nat, q: nat)
    requires p % FRAME_SIZE == 0 && q % FRAME_SIZE == 0 && p < q + FRAME_SIZE && q < p + FRAME_SIZE
    ensures p == q
  {
  }

  lemma StackPages(breakAddr: u64, stackSize: u64)
    requires stackSize > 0 && stackSize % FRAME_SIZE == 0 && StackFits(breakAddr, stackSize)
    ensures var (low, top) := StackRange(breakAddr, stackSize);
      && low == AlignUp4K(breakAddr) + 2 * FRAME_SIZE && top == low + stackSize
      && low % FRAME_SIZE == 0 && top % FRAME_SIZE == 0
  {
    AlignUpShift(breakAddr);
    var low := AlignUp4K(breakAddr) + 2 * FRAME_SIZE;
    AlignedSum(AlignUp4K(breakAddr), 2 * FRAME_SIZE);
    AlignedSum(low, stackSize);
    Unwrapped(breakAddr + FRAME_SIZE);
    Unwrapped(low);
    Unwrapped(low + stackSize);
  }

  lemma Unwrapped(x: nat)
    requires x < USIZE_RANGE
    ensures x % USIZE_RANGE == x
  {
  }

  /** No page starts above the last one. */
  lemma LastPage(p: nat)
    requires p % FRAME_SIZE == 0
    ensures p > USIZE_RANGE - FRAME_SIZE ==> p >= USIZE_RANGE
  {
  }

  lemma AlignedSum(a: nat, b: nat)
    requires a % FRAME_SIZE == 0 && b % FRAME_SIZE == 0
    ensures (a + b) % FRAME_SIZE == 0
  {
  }

  lemma {:induction false} EndBelowBreak(infos: seq<LoadInfo>, i: nat)
    requires i < |infos|
    ensures infos[i].endVaddr <= BreakOf(infos)
  {
    if i < |infos| - 1 {
      EndBelowBreak(infos[..|infos| - 1], i);
    }
  }

  lemma AlignUpMonotone(a: u64, b: u64)
    requires a <= b <= USIZE_RANGE - FRAME_SIZE
    ensures AlignUp4K(a) <= AlignUp4K(b)
  {
  }

  /** Segments only touch pages below the break rounded up. */
  lemma TouchedBelowBreak(infos: seq<LoadInfo>, p: nat)
    requires TouchedAt(infos, p) && BreakOf(infos) <= USIZE_RANGE - FRAME_SIZE
    ensures p < AlignUp4K(BreakOf(infos))
  {
    var i :| 0 <= i < |infos| && infos[i].Touches(p);
    EndBelowBreak(infos, i);
    AlignUpMonotone(infos[i].endVaddr, BreakOf(infos));
  }

  datatype Image = Image(breakAddr: u64, stackLow: u64, heapBottom: u64) | Faulty(fault: Fault) | Refused

  /** Where the kernel puts the pages of its own in every address space. */
  datatype KernelPages = KernelPages(trapContext: nat, trampoline: nat) {
    ghost predicate Valid() {
      trapContext % FRAME_SIZE == 0 && trampoline % FRAME_SIZE == 0
    }

    /** Neither page meets another, or a mapped one. */
    ghost predicate Free(perms: map<nat, set<Perm>>) {
      trapContext !in perms && trampoline !in perms && trapContext != trampoline
    }
  }

  /** Maps the stack above a break that all mapped pages lie below. */
  method PlaceStack(vm: VmSpace, breakAddr: u64, stackSize: u64) returns (r: Image)
    requires vm.Valid() && stackSize > 0 && stackSize % FRAME_SIZE == 0 && StackFits(breakAddr, stackSize)
    requires forall p :: p in vm.perms ==> p < AlignUp4K(breakAddr)
    modifies vm
    ensures vm.Valid() && r.Image? && r.breakAddr == breakAddr &&
      (r.stackLow, r.heapBottom) == StackRange(breakAddr, stackSize)
    ensures vm.perms == old(vm.perms) + Area(r.stackLow, r.heapBottom, USER_DATA)
    ensures Extends(vm.mem, old(vm.mem))
  {
    var low := (AlignUp4K((breakAddr + FRAME_SIZE) % USIZE_RANGE) + FRAME_SIZE) % USIZE_RANGE;
    var top := (low + stackSize) % USIZE_RANGE;
    StackPages(breakAddr, stackSize);
    var frames := NewFrames(stackSize);
    var ok := vm.MapArea(low, top, USER_DATA, frames);
    r := if ok then Image(breakAddr, low, top) else Refused;
  }

  /** Maps the trap context and the trampoline. */
  method MapKernelPages(vm: VmSpace, k: KernelPages) returns (ok: bool)
    requires vm.Valid() && k.Valid()
    modifies vm
    ensures vm.Valid() && ok == k.Free(old(vm.perms))
    ensures ok ==> vm.perms == old(vm.perms)[k.trapContext := USER_DATA][k.trampoline := {READ, EXECUTE}]
    ensures Extends(vm.mem, old(vm.mem))
  {
    ghost var mem0 := vm.mem;
    var frame := NewFrame();
    ok := vm.MapPage(k.trapContext, USER_DATA, frame);
    if !ok {
      return;
    }
    FrameExtends(mem0, k.trapContext, frame);
    ghost var mem1 := vm.mem;
    frame := NewFrame();
    ok := vm.MapPage(k.trampoline, {READ, EXECUTE}, frame);
    if ok {
      FrameExtends(mem1, k.trampoline, frame);
    }
  }

  lemma FrameExtends(mem: map<nat, byte>, page: nat, frame: seq<byte>)
    requires page % FRAME_SIZE == 0 && |frame| == FRAME_SIZE && forall a: nat :: PageOf(a) == page ==> a !in mem
    ensures Extends(mem + Frame(page, frame), mem)
  {
  }

  /** Loads an image into a new address space, puts the stack above it, and adds the
      kernel's pages. The stack is never refused, at least two pages below it stay free of
      the image, and so does everything from its top, where the heap starts. */
  method BuildVmSpace(headers: seq<ProgramHeader>, bias: u64, input: seq<byte>, stackSize: u64, k: KernelPages)
    returns (vm: VmSpace, r: Image)
    requires |input| < USIZE_RANGE / 2 && stackSize > 0 && stackSize % FRAME_SIZE == 0 && k.Valid()
    requires StackFits(BreakOf(CollectLoadInfo(headers, bias)), stackSize)
    ensures fresh(vm) && vm.Valid()
    ensures r.Faulty? <==> FirstFault(CollectLoadInfo(headers, bias), |input|).Some?
    ensures r.Faulty? ==> FirstFault(CollectLoadInfo(headers, bias), |input|) == Some(r.fault)
    ensures r == Refused ==> KernelPageTaken(CollectLoadInfo(headers, bias), stackSize, k)
    ensures r.Image? ==> !KernelPageTaken(CollectLoadInfo(headers, bias), stackSize, k)
    ensures r.Image? ==> Built(CollectLoadInfo(headers, bias), input, stackSize, k, r, vm.perms, vm.mem)
    ensures r.Faulty? <==> !NoneFails(headers, |headers|, bias, |input|)
    ensures r.Faulty? ==> FirstFailsWith(headers, bias, |input|, r.fault)
    ensures r.Image? ==> BuiltAsHeadersSay(headers, bias, input, k, r, vm.perms, vm.mem)
  {
    ghost var infos := CollectLoadInfo(headers, bias);
    vm := new VmSpace();
    var loaded := LoadToVmSpace(vm, headers, bias, input);
    if loaded.Failed? {
      return vm, Faulty(loaded.fault);
    }
    ghost var perms, mem := vm.perms, vm.mem;
    BelowStack(infos, perms);
    var image := PlaceStack(vm, loaded.breakAddr, stackSize);
    StackPages(loaded.breakAddr, stackSize);
    KernelPageTakenIff(infos, stackSize, k, image, perms);
    var ok := MapKernelPages(vm, k);
    r := if ok then image else Refused;
    if ok {
      LaidOutAfter(infos, k, r, perms);
      BytesStay(infos, input, mem, vm.mem);
      BuiltAsSaid(headers, bias, input, k, r, vm.perms, vm.mem);
    }
  }

  /** What a finished image is: laid out, with the file's bytes in place. */
  ghost predicate Built(infos: seq<LoadInfo>, input: seq<byte>, stackSize: u64, k: KernelPages, r: Image,
                        perms: map<nat, set<Perm>>, mem: map<nat, byte>)
    requires r.Image?
  {
    && r.breakAddr == BreakOf(infos) && (r.stackLow, r.heapBottom) == StackRange(r.breakAddr, stackSize)
    && LaidOut(infos, k, r, perms)
    && ElfLoad.Sound(infos, input) && BytesLoaded(infos, input, map[], mem)
  }

  /** The same by the fields of the program headers: the break, the file's bytes, and that
      apart from the stack and the kernel's pages exactly the pages of LOAD segments are
      mapped, with the permissions their headers ask for. */
  ghost predicate BuiltAsHeadersSay(headers: seq<ProgramHeader>, bias: u64, input: seq<byte>, k: KernelPages, r: Image,
                                    perms: map<nat, set<Perm>>, mem: map<nat, byte>)
    requires r.Image?
  {
    && IsBreak(headers, bias, r.breakAddr) && BytesAsHeadersSay(headers, bias, input, map[], mem)
    && (forall p: nat :: p != k.trapContext && p != k.trampoline && !(r.stackLow <= p < r.heapBottom) ==>
      (p in perms <==> SomeHasPage(headers, bias, p)))
    && (forall p: nat, x: Perm {:trigger x in perms[p]} {:trigger SomeAsksFor(headers, bias, p, x)} ::
      SomeHasPage(headers, bias, p) ==> p in perms && (x in perms[p] <==> SomeAsksFor(headers, bias, p, x)))
  }

  lemma {:induction false} BuiltAsSaid(headers: seq<ProgramHeader>, bias: u64, input: seq<byte>, k: KernelPages,
                                       r: Image, perms: map<nat, set<Perm>>, mem: map<nat, byte>)
    requires r.Image? && r.breakAddr == BreakOf(CollectLoadInfo(headers, bias))
    requires LaidOut(CollectLoadInfo(headers, bias), k, r, perms)
    requires ElfLoad.Sound(CollectLoadInfo(headers, bias), input)
    requires BytesLoaded(CollectLoadInfo(headers, bias), input, map[], mem)
    ensures BuiltAsHeadersSay(headers, bias, input, k, r, perms, mem)
  {
    BreakOfHeaders(headers, bias);
    BytesAsSaid(headers, bias, input, map[], mem);
    forall p: nat ensures SomeHasPage(headers, bias, p) <==> TouchedAt(CollectLoadInfo(headers, bias), p) {
      PageOfHeaders(headers, bias, p, USER);
    }
    forall p: nat, x: Perm | SomeHasPage(headers, bias, p)
      ensures p in perms && (x in perms[p] <==> SomeAsksFor(headers, bias, p, x))
    {
      PageOfHeaders(headers, bias, p, x);
    }
  }

  /** A page of the kernel's is also one of the segments or of the stack. */
  ghost predicate KernelPageTaken(infos: seq<LoadInfo>, stackSize: u64, k: KernelPages) {
    var (low, top) := StackRange(BreakOf(infos), stackSize);
    k.trapContext == k.trampoline || Taken(infos, low, top, k.trapContext) || Taken(infos, low, top, k.trampoline)
  }

  ghost predicate Taken(infos: seq<LoadInfo>, low: nat, top: nat, page: nat) {
    TouchedAt(infos, page) || low <= page < top
  }

  lemma KernelPageTakenIff(infos: seq<LoadInfo>, stackSize: u64, k: KernelPages, r: Image, perms: map<nat, set<Perm>>)
    requires r.Image? && (r.stackLow, r.heapBottom) == StackRange(BreakOf(infos), stackSize) && k.Valid()
    requires PagesLoaded(infos, map[], perms)
    ensures KernelPageTaken(infos, stackSize, k) <==> !k.Free(perms + Area(r.stackLow, r.heapBottom, USER_DATA))
  {
  }

  lemma BytesStay(infos: seq<LoadInfo>, input: seq<byte>, mem: map<nat, byte>, mem': map<nat, byte>)
    requires ElfLoad.Sound(infos, input) && BytesLoaded(infos, input, map[], mem)
    requires forall a :: a in mem && FileByte(infos, input, a).Some? ==> a in mem' && mem'[a] == mem[a]
    ensures BytesLoaded(infos, input, map[], mem')
  {
    forall a: nat | FileByte(infos, input, a).Some? ensures a in mem' && mem'[a] == FileByte(infos, input, a).value {
      assert a in mem && mem[a] == FileByte(infos, input, a).value;
    }
  }

  lemma BelowStack(infos: seq<LoadInfo>, perms: map<nat, set<Perm>>)
    requires PagesLoaded(infos, map[], perms) && BreakOf(infos) <= USIZE_RANGE - FRAME_SIZE
    ensures forall p :: p in perms ==> p < AlignUp4K(BreakOf(infos))
  {
    forall p | p in perms ensures p < AlignUp4K(BreakOf(infos)) {
      TouchedBelowBreak(infos, p);
    }
  }

  lemma LaidOutAfter(infos: seq<LoadInfo>, k: KernelPages, r: Image, perms: map<nat, set<Perm>>)
    requires r.Image? && AlignUp4K(r.breakAddr) + 2 * FRAME_SIZE == r.stackLow < r.heapBottom
    requires PagesLoaded(infos, map[], perms) && (forall p :: p in perms ==> p < AlignUp4K(r.breakAddr))
    requires k.Free(perms + Area(r.stackLow, r.heapBottom, USER_DATA))
    ensures LaidOut(infos, k, r,
      (perms + Area(r.stackLow, r.heapBottom, USER_DATA))[k.trapContext := USER_DATA][k.trampoline := {READ, EXECUTE}])
  {
    forall p | p in perms ensures perms[p] == PermissionAt(infos, p) {
      assert {} + PermissionAt(infos, p) == PermissionAt(infos, p);
    }
  }

  /** Segment pages lie below the break rounded up, with the permissions of the segments;
      then come free pages and the stack. But for the kernel's two pages, which lie where
      the configuration puts them, nothing else is mapped, above the stack or below. */
  ghost predicate LaidOut(infos: seq<LoadInfo>, k: KernelPages, r: Image, perms: map<nat, set<Perm>>)
    requires r.Image?
  {
    && AlignUp4K(r.breakAddr) + 2 * FRAME_SIZE == r.stackLow < r.heapBottom
    && (forall p: nat :: p != k.trapContext && p != k.trampoline ==>
      (p in perms <==> TouchedAt(infos, p) || (r.stackLow <= p < r.heapBottom && p % FRAME_SIZE == 0)))
    && (forall p: nat :: TouchedAt(infos, p) ==>
          p < AlignUp4K(r.breakAddr) && p in perms && perms[p] == PermissionAt(infos, p))
    && (forall p: nat :: r.stackLow <= p < r.heapBottom && p % FRAME_SIZE == 0 ==> p in perms && perms[p] == USER_DATA)
    && k.trapContext in perms && perms[k.trapContext] == USER_DATA
    && k.trampoline in perms && perms[k.trampoline] == {READ, EXECUTE}
  }

  // ---------------------------------------------------------------- brk

  datatype HeapInfo = HeapInfo(start: u64, current: u64, end: u64)

  datatype Reply = At(addr: u64) | EINVAL | Panic

  function Extended(h: HeapInfo, addr: u64): HeapInfo {
    HeapInfo(h.start, addr, if addr < h.end then h.end else Grown(h.end, addr) % USIZE_RANGE)
  }

  /** The end of a heap that must reach from `end` to `addr`. */
  function Grown(end: u64, addr: u64): nat
    requires end <= addr
  {
    end + AlignUp4K(addr - end)
  }

  /** Extending to `addr` maps pages, and the address space has no room for them. */
  predicate NoRoom(h: HeapInfo, perms: map<nat, set<Perm>>, addr: u64) {
    addr >= h.end && (Grown(h.end, addr) >= USIZE_RANGE || !Unmapped(perms, h.end, Grown(h.end, addr)))
  }

  class Task {
    var heap: HeapInfo
    const space: VmSpace

    constructor (space: VmSpace, heapBottom: u64)
      ensures this.space == space && heap == HeapInfo(heapBottom, heapBottom, heapBottom)
    {
      this.space, heap := space, HeapInfo(heapBottom, heapBottom, heapBottom);
    }

    /** Maps the pages that are missing up to `addr`. */
    method Grow(addr: u64) returns (ok: bool)
      requires space.Valid() && heap.end % FRAME_SIZE == 0 && heap.end <= addr
      modifies this, space
      ensures space.Valid() && ok == !NoRoom(old(heap), old(space.perms), addr)
      ensures ok ==> heap == old(heap).(end := Grown(old(heap.end), addr))
      ensures ok ==> space.perms == old(space.perms) + Area(old(heap.end), heap.end, USER_DATA)
      ensures !ok ==> heap == old(heap) && space.perms == old(space.perms)
    {
      var low := heap.end;
      var addition := AlignUp4K(addr - low);
      if low + addition >= USIZE_RANGE {
        return false;
      }
      var high: u64 := low + addition;
      AlignedSum(low, addition);
      assert high == Grown(low, addr);
      var frames := NewFrames(addition);
      ok := space.MapArea(low, high, USER_DATA, frames);
      if ok {
        heap := heap.(end := high);
      }
    }

    /** Sets the current end, then maps pages if it reaches past the heap. A panic there
        leaves the new current end behind. */
    method ExtendHeap(addr: u64) returns (r: Reply)
      requires space.Valid() && heap.end % FRAME_SIZE == 0
      modifies this, space
      ensures space.Valid() && r == if NoRoom(old(heap), old(space.perms), addr) then Panic else At(addr)
      ensures r.At? ==>
        heap == Extended(old(heap), addr) && space.perms == old(space.perms) + Area(old(heap.end), heap.end, USER_DATA)
      ensures r == Panic ==> heap == old(heap).(current := addr) && space.perms == old(space.perms)
    {
      heap := heap.(current := addr);
      if addr < heap.end {
        assert space.perms + Area(heap.end, heap.end, USER_DATA) == space.perms;
        return At(heap.current);
      }
      var ok := Grow(addr);
      r := if ok then At(heap.current) else Panic;
    }

    /** The system call: asks for the current end with 0, and never shrinks. */
    method Brk(addr: u64) returns (r: Reply)
      requires space.Valid() && heap.end % FRAME_SIZE == 0
      modifies this, space
      ensures space.Valid() && r == Answer(old(heap), old(space.perms), addr)
      ensures (heap, space.perms) == Step(old(heap), old(space.perms), addr)
    {
      if addr == 0 {
        return At(heap.current);
      }
      if addr < heap.start || addr < heap.current {
        return EINVAL;
      }
      r := ExtendHeap(addr);
    }
  }

  function Answer(h: HeapInfo, perms: map<nat, set<Perm>>, addr: u64): Reply {
    if addr == 0 then At(h.current)
    else if addr < h.start || addr < h.current then EINVAL
    else if NoRoom(h, perms, addr) then Panic
    else At(addr)
  }

  /** Heap and pages after a brk. One that panics has moved the current end already. */
  ghost function Step(h: HeapInfo, perms: map<nat, set<Perm>>, addr: u64): (HeapInfo, map<nat, set<Perm>>) {
    var r := Answer(h, perms, addr);
    if addr == 0 || r == EINVAL then (h, perms)
    else if r == Panic then (h.(current := addr), perms)
    else
      var h' := Extended(h, addr);
      (h', perms + Area(h.end, h'.end, USER_DATA))
  }

  /** The heap ends where its current end, rounded up to a page, is. */
  ghost predicate Sound(h: HeapInfo) {
    && h.start % FRAME_SIZE == 0 && FRAME_SIZE <= h.start <= h.current <= h.end
    && h.current <= USIZE_RANGE - FRAME_SIZE && h.end == AlignUp4K(h.current)
  }

  /** The current end lies past the pages of the heap. */
  ghost predicate Overrun(h: HeapInfo) {
    && h.start % FRAME_SIZE == 0 && FRAME_SIZE <= h.start <= h.end < h.current
    && h.end % FRAME_SIZE == 0
  }

  /** The heaps that calls lead to from a sound one. */
  ghost predicate Reached(h: HeapInfo) {
    Sound(h) || Overrun(h)
  }

  lemma GrownIsRounded(end: u64, addr: u64)
    requires end % FRAME_SIZE == 0 && FRAME_SIZE <= end <= addr
    ensures Grown(end, addr) < USIZE_RANGE <==> addr <= USIZE_RANGE - FRAME_SIZE
    ensures addr <= USIZE_RANGE - FRAME_SIZE ==> Grown(end, addr) == AlignUp4K(addr)
  {
    var x: u64 := addr - end;
    AlignedSum(end, AlignUp4K(x));
    if addr <= USIZE_RANGE - FRAME_SIZE {
      OnePage(end + AlignUp4K(x), AlignUp4K(addr));
      LastPage(end + AlignUp4K(x));
    } else {
      LastPage(end + AlignUp4K(x));
    }
  }

  lemma RoundedInside(end: u64, addr: u64)
    requires end % FRAME_SIZE == 0 && addr <= USIZE_RANGE - FRAME_SIZE
    ensures AlignUp4K(addr) == end <==> addr <= end < addr + FRAME_SIZE
  {
    if addr <= end < addr + FRAME_SIZE {
      OnePage(AlignUp4K(addr), end);
    }
  }

  /** Extending a heap directly keeps it sound exactly for addresses in the space, at or
      above the start, that do not leave the last page unused. The system call's guard,
      which refuses to go below the current end, is what sees to that. */
  lemma ExtendKeepsSoundIff(h: HeapInfo, addr: u64)
    requires Sound(h)
    ensures Sound(Extended(h, addr)) <==> h.start <= addr <= USIZE_RANGE - FRAME_SIZE && h.end < addr + FRAME_SIZE
  {
    if addr <= USIZE_RANGE - FRAME_SIZE {
      ExtendedEnd(h, addr);
    }
  }

  lemma ExtendedEnd(h: HeapInfo, addr: u64)
    requires h.end % FRAME_SIZE == 0 && FRAME_SIZE <= h.end && addr <= USIZE_RANGE - FRAME_SIZE
    ensures Extended(h, addr).end == AlignUp4K(addr) <==> h.end < addr + FRAME_SIZE
  {
    if addr >= h.end {
      GrownIsRounded(h.end, addr);
      Unwrapped(AlignUp4K(addr));
    } else {
      RoundedInside(h.end, addr);
    }
  }

  /** Two calls that both passed the guard before either extended the heap, as tasks can
      that share it: the heap stays sound exactly if the later one does not end on a lower
      page than the first. */
  lemma StaleGuardSoundIff(h: HeapInfo, first: u64, second: u64)
    requires Sound(h) && h.current <= first && h.current <= second
    requires first <= USIZE_RANGE - FRAME_SIZE && second <= USIZE_RANGE - FRAME_SIZE
    ensures Sound(Extended(Extended(h, first), second)) <==> AlignUp4K(first) <= AlignUp4K(second)
  {
    RoundedInside(h.end, h.current);
    ExtendKeepsSoundIff(h, first);
    ExtendKeepsSoundIff(Extended(h, first), second);
    RoundedBelow(AlignUp4K(first), second);
  }

  lemma RoundedBelow(end: u64, addr: u64)
    requires end % FRAME_SIZE == 0 && addr <= USIZE_RANGE - FRAME_SIZE
    ensures end <= AlignUp4K(addr) <==> end < addr + FRAME_SIZE
  {
    if AlignUp4K(addr) < end < addr + FRAME_SIZE {
      OnePage(AlignUp4K(addr), end);
    }
  }

  /** A granted brk leaves a sound heap, even one that was not sound before, and never
      shrinks it. */
  lemma BrkKeepsSound(h: HeapInfo, perms: map<nat, set<Perm>>, addr: u64)
    requires Reached(h) && addr != 0 && Answer(h, perms, addr).At?
    ensures Sound(Extended(h, addr)) && h.current <= Extended(h, addr).current && h.end <= Extended(h, addr).end
  {
    if addr >= h.end {
      GrownIsRounded(h.end, addr);
    } else {
      RoundedInside(h.end, h.current);
      ExtendKeepsSoundIff(h, addr);
    }
  }

  /** One that panics has moved the current end past the pages of the heap. */
  lemma BrkOverruns(h: HeapInfo, perms: map<nat, set<Perm>>, addr: u64)
    requires Reached(h) && Answer(h, perms, addr) == Panic
    ensures Overrun(h.(current := addr)) && h.current <= addr
  {
    GrownIsRounded(h.end, addr);
  }

  /** What a brk makes of a heap, by its answer: one that panics overruns it, one that
      extends it makes it sound, and any other changes nothing. */
  lemma BrkOutcome(h: HeapInfo, perms: map<nat, set<Perm>>, addr: u64)
    requires Reached(h)
    ensures var (h', perms') := Step(h, perms, addr);
      match Answer(h, perms, addr)
      case Panic => Overrun(h') && perms' == perms
      case EINVAL => h' == h && perms' == perms
      case At(_) => if addr == 0 then h' == h && perms' == perms else Sound(h')
  {
    if Answer(h, perms, addr) == Panic {
      BrkOverruns(h, perms, addr);
    } else if addr != 0 && Answer(h, perms, addr).At? {
      BrkKeepsSound(h, perms, addr);
    }
  }

  /** What a call answers: brk with 0 the current end; an address below the start or the
      current end is refused; any other becomes the current end and is the answer, unless the
      pages up to it cannot be had. */
  lemma BrkAnswers(h: HeapInfo, perms: map<nat, set<Perm>>, addr: u64)
    requires Reached(h)
    ensures var (r, h') := (Answer(h, perms, addr), Step(h, perms, addr).0);
      && (r == EINVAL <==> 0 < addr < Max(h.start, h.current))
      && (r.At? ==> r.addr == (if addr == 0 then h.current else addr) && h'.current == r.addr)
      && (r.At? && addr != 0 ==> h'.end == AlignUp4K(addr))
      && (r == Panic ==> h'.current == addr && h'.end == h.end)
      && h'.start == h.start
  {
    BrkOutcome(h, perms, addr);
  }

  /** So the system call keeps a sound heap sound exactly if it does not panic. */
  lemma BrkSoundIff(h: HeapInfo, perms: map<nat, set<Perm>>, addr: u64)
    requires Sound(h)
    ensures Sound(Step(h, perms, addr).0) <==> Answer(h, perms, addr) != Panic
  {
    BrkOutcome(h, perms, addr);
  }

  /** Brk panics exactly when it must map pages up to `addr` rounded up and one of them
      is in use or lies past the end of the address space. */
  lemma BrkPanicsIff(h: HeapInfo, perms: map<nat, set<Perm>>, addr: u64)
    requires Reached(h)
    ensures Answer(h, perms, addr) == Panic <==>
      addr >= h.end && addr >= h.current &&
      (addr > USIZE_RANGE - FRAME_SIZE || !Unmapped(perms, h.end, AlignUp4K(addr)))
  {
    if addr >= h.end {
      GrownIsRounded(h.end, addr);
    }
  }

  /** Where the page that a heap would grow over is in use, every brk past the heap panics;
      and then a call that asks is told an end that the pages of the heap do not reach. */
  lemma BlockedHeap(h: HeapInfo, perms: map<nat, set<Perm>>, addr: u64)
    requires Sound(h) && h.end in perms && addr > h.end
    ensures Answer(h, perms, addr) == Panic
    ensures var (h', perms') := Step(h, perms, addr);
      perms' == perms && h' == HeapInfo(h.start, addr, h.end) && Overrun(h') && Answer(h', perms', 0) == At(addr)
  {
    BrkPanicsIff(h, perms, addr);
  }

  // ---------------------------------------------------------------- runs of brk

  ghost function After(h: HeapInfo, perms: map<nat, set<Perm>>, addrs: seq<u64>): (HeapInfo, map<nat, set<Perm>>)
    decreases |addrs|
  {
    if addrs == [] then (h, perms)
    else
      var (h', perms') := Step(h, perms, addrs[0]);
      After(h', perms', addrs[1..])
  }

  /** No call of the run panics. */
  ghost predicate Serves(h: HeapInfo, perms: map<nat, set<Perm>>, addrs: seq<u64>)
    decreases |addrs|
  {
    addrs == [] || (
      var (h', perms') := Step(h, perms, addrs[0]);
      Answer(h, perms, addrs[0]) != Panic && Serves(h', perms', addrs[1..]))
  }

  ghost predicate SoundThroughout(h: HeapInfo, perms: map<nat, set<Perm>>, addrs: seq<u64>)
    decreases |addrs|
  {
    Sound(h) && (addrs == [] || (
      var (h', perms') := Step(h, perms, addrs[0]);
      SoundThroughout(h', perms', addrs[1..])))
  }

  /** Over any run of brk calls start <= current <= end with the end on the next page holds
      all along exactly if no call panics. */
  lemma {:induction false} RunSoundIff(h: HeapInfo, perms: map<nat, set<Perm>>, addrs: seq<u64>)
    requires Sound(h)
    ensures SoundThroughout(h, perms, addrs) <==> Serves(h, perms, addrs)
    decreases |addrs|
  {
    if addrs != [] {
      var (h', perms') := Step(h, perms, addrs[0]);
      BrkSoundIff(h, perms, addrs[0]);
      if Sound(h') {
        RunSoundIff(h', perms', addrs[1..]);
      }
    }
  }

  /** Of the calls that set the current end the last one was granted; `served` if there is
      none. */
  ghost predicate LastServed(served: bool, h: HeapInfo, perms: map<nat, set<Perm>>, addrs: seq<u64>)
    decreases |addrs|
  {
    if addrs == [] then served
    else
      var (h', perms') := Step(h, perms, addrs[0]);
      var r := Answer(h, perms, addrs[0]);
      LastServed(if addrs[0] == 0 || r == EINVAL then served else r.At?, h', perms', addrs[1..])
  }

  /** A run with panics ends with a sound heap exactly if the last call that set the current
      end was granted: a granted call repairs the heap. */
  lemma {:induction false} RunEndsSoundIff(h: HeapInfo, perms: map<nat, set<Perm>>, addrs: seq<u64>)
    requires Reached(h)
    ensures Sound(After(h, perms, addrs).0) <==> LastServed(Sound(h), h, perms, addrs)
    decreases |addrs|
  {
    if addrs != [] {
      var (h', perms') := Step(h, perms, addrs[0]);
      BrkOutcome(h, perms, addrs[0]);
      RunEndsSoundIff(h', perms', addrs[1..]);
    }
  }

  /** The areas that a run maps. */
  ghost function Areas(h: HeapInfo, perms: map<nat, set<Perm>>, addrs: seq<u64>): seq<(nat, nat)>
    decreases |addrs|
  {
    if addrs == [] then []
    else
      var (h', perms') := Step(h, perms, addrs[0]);
      (if h'.end > h.end then [(h.end, h'.end)] else []) + Areas(h', perms', addrs[1..])
  }

  /** One area after the other, from `low` to `high`, without gap or overlap. */
  ghost predicate Tile(areas: seq<(nat, nat)>, low: nat, high: nat) {
    if areas == [] then low == high
    else areas[0].0 == low && low < areas[0].1 && Tile(areas[1..], areas[0].1, high)
  }

  lemma StepGrows(h: HeapInfo, perms: map<nat, set<Perm>>, addr: u64)
    requires Reached(h)
    ensures var (h', perms') := Step(h, perms, addr);
      && Reached(h') && h'.start == h.start && h.current <= h'.current && h.end <= h'.end
      && Unmapped(perms, h.end, h'.end) && perms' == perms + Area(h.end, h'.end, USER_DATA)
  {
    BrkOutcome(h, perms, addr);
    assert perms + Area(h.end, h.end, USER_DATA) == perms;
    if addr >= h.end {
      GrownIsRounded(h.end, addr);
    }
  }

  lemma AreasJoin(perms: map<nat, set<Perm>>, a: nat, b: nat, c: nat)
    requires a <= b <= c
    ensures perms + Area(a, b, USER_DATA) + Area(b, c, USER_DATA) == perms + Area(a, c, USER_DATA)
  {
  }

  /** Over any run of brk calls, whether they panic or not, the heap only grows, its current
      end is sound or past its pages, the areas mapped tile what was added to it, none of
      those pages was in use, and no other page changes. */
  lemma {:induction false} RunTilesHeap(h: HeapInfo, perms: map<nat, set<Perm>>, addrs: seq<u64>)
    requires Reached(h)
    ensures var (h', perms') := After(h, perms, addrs);
      && Reached(h') && h'.start == h.start && h.current <= h'.current && h.end <= h'.end
      && Tile(Areas(h, perms, addrs), h.end, h'.end)
      && Unmapped(perms, h.end, h'.end) && perms' == perms + Area(h.end, h'.end, USER_DATA)
    decreases |addrs|
  {
    if addrs == [] {
      assert perms + Area(h.end, h.end, USER_DATA) == perms;
    } else {
      var (h1, perms1) := Step(h, perms, addrs[0]);
      StepGrows(h, perms, addrs[0]);
      RunTilesHeap(h1, perms1, addrs[1..]);
      var h' := After(h1, perms1, addrs[1..]).0;
      AreasJoin(perms, h.end, h1.end, h'.end);
      assert Unmapped(perms, h1.end, h'.end);
      if h1.end > h.end {
        assert Areas(h, perms, addrs)[1..] == Areas(h1, perms1, addrs[1..]);
      } else {
        assert Areas(h, perms, addrs) == Areas(h1, perms1, addrs[1..]);
      }
    }
  }
}
