/** Replacing the program of a process (common/task/task, task.rs:563-610): the image is
    built, and the initial stack is put on it. */
module Exec {
  import opened Bytes
  import opened AddressSpace
  import opened ElfLoad
  import opened Heap
  import Stack = UserStacks

  /** What the new program is given. */
  datatype Arguments = Arguments(argv: seq<seq<byte>>, envp: seq<seq<byte>>, aux: Stack.AuxTable,
                                 execPath: seq<byte>, platform: seq<byte>)
  {
    ghost predicate Valid() {
      Stack.Ordered(aux) && Stack.AT_NULL !in Stack.AsMap(aux) && |argv| < USIZE_RANGE
    }
  }

  /** The kernel's pages lie above the stack. */
  ghost predicate KernelPagesAbove(infos: seq<LoadInfo>, stackSize: u64, k: KernelPages) {
    var top := StackRange(BreakOf(infos), stackSize).1;
    k.Valid() && top <= k.trapContext && top <= k.trampoline
  }

  /** Stack memory is there, and the word below it is not. */
  lemma StackIsThere(infos: seq<LoadInfo>, stackSize: u64, k: KernelPages, r: Image, perms: map<nat, set<Perm>>,
                     mem: map<nat, byte>)
    requires r.Image? && Backed(perms, mem) && LaidOut(infos, k, r, perms)
    requires r.stackLow % FRAME_SIZE == 0 && r.heapBottom % FRAME_SIZE == 0
    requires r.heapBottom <= k.trapContext && r.heapBottom <= k.trampoline
    ensures forall a: nat :: r.stackLow <= a < r.heapBottom ==> a in mem
    ensures forall a: nat :: r.stackLow - 8 <= a < r.stackLow ==> a !in mem
  {
    forall a: nat | r.stackLow <= a < r.heapBottom ensures a in mem {
      PageInRange(a, r.stackLow, r.heapBottom);
    }
    forall a: nat | r.stackLow - 8 <= a < r.stackLow ensures a !in mem {
      PageInRange(a, r.stackLow - FRAME_SIZE, r.stackLow);
    }
  }

  lemma PageInRange(a: nat, low: nat, high: nat)
    requires low % FRAME_SIZE == 0 && high % FRAME_SIZE == 0 && low <= a < high
    ensures low <= PageOf(a) < high && PageOf(a) % FRAME_SIZE == 0
  {
  }

  /** No byte that the file backs lies on the stack. */
  lemma BackedBelowStack(infos: seq<LoadInfo>, input: seq<byte>, r: Image, a: nat)
    requires ElfLoad.Sound(infos, input) && FileByte(infos, input, a).Some? && FirstFault(infos, |input|) == None
    requires r.Image? && r.breakAddr == BreakOf(infos) && r.breakAddr <= r.stackLow
    ensures a < r.stackLow
  {
    forall i | 0 <= i < |infos| ensures infos[i].Fault(|input|) == None {
      NoFault(infos, |input|, i);
    }
    BackedBelowBreak(infos, input, a);
  }

  /** Builds the image and its stack. When that succeeds, the program finds on its stack
      what it was given, and every byte of its file is still where its header says. */
  method Execve(headers: seq<ProgramHeader>, bias: u64, input: seq<byte>, stackSize: u64, k: KernelPages,
                args: Arguments)
    returns (vm: VmSpace, r: Image, sp: Stack.Outcome<u64>, ghost stack: Stack.UserStack)
    requires |input| < USIZE_RANGE / 2 && stackSize > 0 && stackSize % FRAME_SIZE == 0 && args.Valid()
    requires StackFits(BreakOf(CollectLoadInfo(headers, bias)), stackSize)
    requires KernelPagesAbove(CollectLoadInfo(headers, bias), stackSize, k)
    ensures stack.argv == args.argv && stack.envp == args.envp && stack.execPath == args.execPath &&
      stack.platform == args.platform
    ensures r.Faulty? <==> FirstFault(CollectLoadInfo(headers, bias), |input|).Some?
    ensures r.Faulty? ==> FirstFault(CollectLoadInfo(headers, bias), |input|) == Some(r.fault)
    ensures r.Faulty? <==> !NoneFails(headers, |headers|, bias, |input|)
    ensures r.Faulty? ==> FirstFailsWith(headers, bias, |input|, r.fault)
    ensures r == Refused ==> KernelPageTaken(CollectLoadInfo(headers, bias), stackSize, k)
    ensures r.Image? ==> !KernelPageTaken(CollectLoadInfo(headers, bias), stackSize, k)
    ensures r.Image? ==> stack.top == r.heapBottom && stack.size == stackSize
    ensures r.Image? ==> Stack.EndsAs(sp, stack.ImageFate(args.aux))
    ensures r.Image? && sp.Ok? ==>
      && sp.value == stack.EntryPointer(args.aux)
      && stack.FilledIn(Stack.AsMap(args.aux), Stack.AsMap(stack.aux))
      && InPlace(CollectLoadInfo(headers, bias), input, vm.mem)
      && IsBreak(headers, bias, r.breakAddr) && BytesAsHeadersSay(headers, bias, input, map[], vm.mem)
      && sp.value in Stack.WordsOf(vm.mem)
      && Stack.ParseImage(vm.mem, Stack.WordsOf(vm.mem), sp.value, r.heapBottom)
           == Stack.Image(|args.argv|, Stack.UpToNulAll(args.argv), Stack.UpToNulAll(args.envp),
                          Stack.Reverse(stack.aux))
  {
    ghost var infos := CollectLoadInfo(headers, bias);
    vm, r := BuildVmSpace(headers, bias, input, stackSize, k);
    var top := if r.Image? then r.heapBottom else 0;
    var s := new Stack.UserStack(top, stackSize, args.argv, args.envp, args.aux, args.execPath, args.platform);
    stack := s;
    if !r.Image? {
      return vm, r, Stack.Err(Stack.EINVAL), s;
    }
    StackPages(r.breakAddr, stackSize);
    StackIsThere(infos, stackSize, k, r, vm.perms, vm.mem);
    ghost var mem := vm.mem;
    sp := s.Init(vm);
    forall a | a in mem && FileByte(infos, input, a).Some? ensures a in vm.mem && vm.mem[a] == mem[a] {
      BackedBelowStack(infos, input, r, a);
    }
    BytesStay(infos, input, mem, vm.mem);
    LoadedInPlace(infos, input, vm.mem);
    BytesAsSaid(headers, bias, input, map[], vm.mem);
  }

  /** Every byte that one segment alone takes from the file holds it. */
  ghost predicate InPlace(infos: seq<LoadInfo>, input: seq<byte>, mem: map<nat, byte>) {
    && ElfLoad.Sound(infos, input)
    && (forall i: nat, k: nat {:trigger ByteInPlace(infos, input, mem, i, k)} ::
      i < |infos| && k < infos[i].fileSize && Alone(infos, i) ==> ByteInPlace(infos, input, mem, i, k))
  }

  ghost predicate ByteInPlace(infos: seq<LoadInfo>, input: seq<byte>, mem: map<nat, byte>, i: nat, k: nat)
    requires ElfLoad.Sound(infos, input) && i < |infos| && k < infos[i].fileSize
  {
    infos[i].startVaddr + k in mem && mem[infos[i].startVaddr + k] == input[infos[i].offset + k]
  }

  /** No other segment backs a byte of this one. */
  ghost predicate Alone(infos: seq<LoadInfo>, i: nat)
    requires i < |infos|
  {
    forall j, a :: 0 <= j < |infos| && j != i && infos[i].Backs(a) ==> !infos[j].Backs(a)
  }

  lemma LoadedInPlace(infos: seq<LoadInfo>, input: seq<byte>, mem: map<nat, byte>)
    requires ElfLoad.Sound(infos, input) && BytesLoaded(infos, input, map[], mem)
    ensures InPlace(infos, input, mem)
  {
    forall i: nat, k: nat {:trigger ByteInPlace(infos, input, mem, i, k)} | i < |infos| && k < infos[i].fileSize &&
      Alone(infos, i)
      ensures ByteInPlace(infos, input, mem, i, k)
    {
      DisjointSegmentsLoaded(infos, input, map[], mem, i, k);
    }
  }
}
