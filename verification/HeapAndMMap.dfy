/** The heap and the regions of mmap share one address space (common/task/task, task.rs:257-288
    and syscall/mmap.rs:120-237): what the one maps the other cannot. */
module HeapAndMMap {
  import opened Bytes
  import opened AddressSpace
  import Heap
  import MMap

  /** The table that goes with a heap and an address space. */
  ghost predicate GoesWith(t: MMap.Table, h: Heap.HeapInfo, perms: map<nat, set<Perm>>) {
    t.heap == MMap.HeapRange(h.start, h.end) && MMap.SameSpace(perms, t.areas)
  }

  /** A brk, granted or not, is the heap growing to the end that the brk leaves. */
  lemma BrkIsHeapGrows(t: MMap.Table, h: Heap.HeapInfo, perms: map<nat, set<Perm>>, addr: u64)
    requires Heap.Reached(h) && GoesWith(t, h, perms)
    ensures var (h', perms') := Heap.Step(h, perms, addr);
      var (t', r) := MMap.Do(t, MMap.HeapGrows(h'.end));
      r == MMap.Addr(h'.end) && GoesWith(t', h', perms') && t'.regions == t.regions && t'.mapStart == t.mapStart
  {
    var (h', perms') := Heap.Step(h, perms, addr);
    Heap.StepGrows(h, perms, addr);
    if h'.end > h.end {
      MMap.FreeIsUnmapped(perms, t.areas, h.end, h'.end);
      MMap.MappedAlike(perms, t.areas, h.end, h'.end, Heap.USER_DATA);
    } else {
      assert perms + Area(h.end, h.end, Heap.USER_DATA) == perms;
    }
  }

  /** An executable mapping is only refused above the start of the heap, so a process can put
      one on the first page of its empty heap. After that every brk panics, and brk with 0
      answers the end that was asked for, with no page of the heap below it. */
  lemma MappingBlocksHeap(heapMax: u64, start: u64, areas: map<nat, nat>, perms: map<nat, set<Perm>>, addr: u64)
    requires start % FRAME_SIZE == 0 && FRAME_SIZE <= start && start + FRAME_SIZE < USIZE_RANGE && start < addr
    requires MMap.SameSpace(perms, areas) && MMap.Free(areas, start, start + FRAME_SIZE)
    ensures var h := Heap.HeapInfo(start, start, start);
      var (t, r) := FirstMapping(heapMax, start, areas);
      var perms' := perms + Area(start, start + FRAME_SIZE, {EXECUTE, USER});
      var h' := h.(current := addr);
      && r == MMap.Addr(start) && GoesWith(t, h, perms')
      && Heap.Answer(h, perms', addr) == Heap.Panic && Heap.Step(h, perms', addr) == (h', perms')
      && Heap.Overrun(h') && Heap.Answer(h', perms', 0) == Heap.At(addr)
  {
    var t0 := MMap.NewTable(heapMax, MMap.HeapRange(start, start), areas);
    MMap.Mapped(t0, start, FRAME_SIZE);
    MMap.MappedAlike(perms, areas, start, start + FRAME_SIZE, {EXECUTE, USER});
    EmptyHeapSound(start);
    Heap.BlockedHeap(Heap.HeapInfo(start, start, start),
      perms + Area(start, start + FRAME_SIZE, {EXECUTE, USER}), addr);
  }

  function FirstMapping(heapMax: u64, start: u64, areas: map<nat, nat>): (MMap.Table, MMap.CallResult) {
    MMap.Mmap(MMap.NewTable(heapMax, MMap.HeapRange(start, start), areas),
              MMap.Anonymous(start, FRAME_SIZE, {MMap.PROT_EXEC}, {}))
  }

  lemma EmptyHeapSound(start: u64)
    requires start % FRAME_SIZE == 0 && FRAME_SIZE <= start && start + FRAME_SIZE < USIZE_RANGE
    ensures Heap.Sound(Heap.HeapInfo(start, start, start))
  {
    MMap.PageAligned(start);
  }
}
