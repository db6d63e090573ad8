/** The initial stack of a process (common/task/task, resource.rs): the code that
    pushes it down from the top, and a reader that parses it upward from the stack
    pointer in the order of section 3.4.1 of the System V ABI AMD64 supplement. */
module UserStacks {
  import opened Bytes
  import opened AddressSpace

  const WORD: nat := 64 / 8

  const AT_NULL := 0
  const AT_IGNORE := 1
  const AT_PLATFORM := 15
  const AT_RANDOM := 25
  const AT_EXECFN := 31

  datatype Error = ENOSPC | EINVAL

  /** How a step ends: a value, an error return, or a panic of the domain. */
  datatype Outcome<+T> = Ok(value: T) | Err(error: Error) | Panic {
    predicate IsFailure() { !Ok? }

    function PropagateFailure<U>(): Outcome<U>
      requires IsFailure()
    {
      if Err? then Err(error) else Panic
    }

    function Extract(): T
      requires !IsFailure()
    {
      value
    }
  }

  // ---------------------------------------------------------------- words

  /** The `n` low bytes of `v`, least significant first. */
  function LittleEndian(v: nat, n: nat): (r: seq<byte>)
    ensures |r| == n
  {
    if n == 0 then [] else [v % 256] + LittleEndian(v / 256, n - 1)
  }

  function FromLittleEndian(s: seq<byte>): (v: nat)
    ensures v < Power256(|s|)
  {
    if s == [] then 0 else s[0] + 256 * FromLittleEndian(s[1..])
  }

  function Power256(n: nat): nat {
    if n == 0 then 1 else 256 * Power256(n - 1)
  }

  lemma {:induction false} LittleEndianRoundTrip(v: nat, n: nat)
    requires v < Power256(n)
    ensures FromLittleEndian(LittleEndian(v, n)) == v
  {
    if n > 0 {
      assert LittleEndian(v, n)[1..] == LittleEndian(v / 256, n - 1);
      LittleEndianRoundTrip(v / 256, n - 1);
    }
  }

  lemma Power256Of8()
    ensures Power256(8) == USIZE_RANGE
  {
    assert Power256(4) == 0x1_0000_0000;
    assert Power256(5) == 256 * Power256(4);
    assert Power256(6) == 256 * Power256(5);
    assert Power256(7) == 256 * Power256(6);
  }

  /** The eight-byte word at `a`. */
  ghost function Word(mem: map<nat, byte>, a: nat): u64
    requires Mapped(mem, a, 8)
  {
    Power256Of8();
    FromLittleEndian(seq(8, i requires 0 <= i < 8 => mem[a + i]))
  }

  lemma WordHeld(mem: map<nat, byte>, a: nat, v: u64)
    requires Holds(mem, a, LittleEndian(v, WORD))
    ensures Mapped(mem, a, 8) && Word(mem, a) == v
  {
    Power256Of8();
    LittleEndianRoundTrip(v, 8);
    assert seq(8, i requires 0 <= i < 8 => mem[a + i]) == LittleEndian(v, WORD) by {
      forall i | 0 <= i < 8 ensures mem[a + i] == LittleEndian(v, WORD)[i] {}
    }
  }

  // ---------------------------------------------------------------- the auxiliary table

  type AuxTable = seq<(u64, u64)>

  /** Keys strictly increase, as in an ordered map. */
  ghost predicate Ordered(t: AuxTable) {
    forall i, j :: 0 <= i < j < |t| ==> t[i].0 < t[j].0
  }

  /** The table as a finite map. */
  ghost function AsMap(t: AuxTable): map<u64, u64> {
    if t == [] then map[] else AsMap(t[..|t| - 1])[t[|t| - 1].0 := t[|t| - 1].1]
  }

  /** Insertion at the place the order asks for, or replacement. */
  function InsertOrdered(t: AuxTable, key: u64, val: u64): (r: AuxTable)
    decreases |t|
  {
    if t == [] || t[|t| - 1].0 < key then t + [(key, val)]
    else if t[|t| - 1].0 == key then t[..|t| - 1] + [(key, val)]
    else InsertOrdered(t[..|t| - 1], key, val) + [t[|t| - 1]]
  }

  lemma {:induction false} AsMapKeys(t: AuxTable)
    ensures forall k :: k in AsMap(t) <==> exists i :: 0 <= i < |t| && t[i].0 == k
    decreases |t|
  {
    if t != [] {
      AsMapKeys(t[..|t| - 1]);
    }
  }

  /** Every key is below `bound`. */
  ghost predicate Below(t: AuxTable, bound: u64) {
    forall i :: 0 <= i < |t| ==> t[i].0 < bound
  }

  lemma {:induction false} InsertOrderedBelow(t: AuxTable, key: u64, val: u64, bound: u64)
    requires Below(t, bound) && key < bound
    ensures Below(InsertOrdered(t, key, val), bound)
    decreases |t|
  {
    if t != [] && key < t[|t| - 1].0 {
      InsertOrderedBelow(t[..|t| - 1], key, val, bound);
    }
  }

  lemma {:induction false} InsertOrderedStaysOrdered(t: AuxTable, key: u64, val: u64)
    requires Ordered(t)
    ensures Ordered(InsertOrdered(t, key, val))
    decreases |t|
  {
    if t != [] && key < t[|t| - 1].0 {
      InsertOrderedStaysOrdered(t[..|t| - 1], key, val);
      InsertOrderedBelow(t[..|t| - 1], key, val, t[|t| - 1].0);
    }
  }

  /** Insertion is map update. */
  lemma {:induction false} InsertOrderedIsUpdate(t: AuxTable, key: u64, val: u64)
    requires Ordered(t)
    ensures AsMap(InsertOrdered(t, key, val)) == AsMap(t)[key := val]
    decreases |t|
  {
    var r := InsertOrdered(t, key, val);
    if t == [] || t[|t| - 1].0 < key {
      assert r[..|r| - 1] == t;
    } else {
      var front, last := t[..|t| - 1], t[|t| - 1];
      if last.0 == key {
        assert r[..|r| - 1] == front;
      } else {
        InsertOrderedIsUpdate(front, key, val);
        assert r[..|r| - 1] == InsertOrdered(front, key, val);
        assert AsMap(r) == AsMap(front)[key := val][last.0 := last.1];
      }
    }
  }

  // ---------------------------------------------------------------- where things go

  /** The position after making room for `len` bytes, aligned down to eight. */
  function Down(pos: int, len: nat): (r: int)
    ensures r <= pos - len && r % 8 == 0
  {
    pos - len - (pos - len) % 8
  }

  function CString(s: seq<byte>): seq<byte> {
    s + [0]
  }

  /** The lengths of the strings as they are pushed: last one first, each with its zero. */
  function Lengths(strs: seq<seq<byte>>): seq<nat>
    decreases |strs|
  {
    if strs == [] then [] else [|strs[|strs| - 1]| + 1] + Lengths(strs[..|strs| - 1])
  }

  /** The position after pushing blocks of these lengths. */
  function EndOf(pos: int, lens: seq<nat>): (r: int)
    ensures r <= pos
    ensures lens != [] ==> r % 8 == 0
    decreases |lens|
  {
    if lens == [] then pos else EndOf(Down(pos, lens[0]), lens[1..])
  }

  /** How pushing comes out: it fits, it is refused, or the domain panics. */
  datatype Fate = Fits | Refused | Panics

  /** What becomes of one block pushed at `pos` to a stack that reaches down to `low`. One
      that is longer than the position is high panics, for the subtraction underflows. */
  function BlockFate(low: int, pos: int, len: nat): Fate {
    if pos < len then Panics else if Down(pos, len) < low then Refused else Fits
  }

  /** What becomes of several: the first one that does not fit decides. */
  function FateOf(low: int, pos: int, lens: seq<nat>): Fate
    decreases |lens|
  {
    if lens == [] then Fits
    else if !BlockFate(low, pos, lens[0]).Fits? then BlockFate(low, pos, lens[0])
    else FateOf(low, Down(pos, lens[0]), lens[1..])
  }

  function Then(first: Fate, next: Fate): Fate {
    if first.Fits? then next else first
  }

  /** The first block and the rest. */
  lemma PushedFirst(low: int, pos: int, len: nat, rest: seq<nat>)
    ensures EndOf(pos, [len] + rest) == EndOf(Down(pos, len), rest)
    ensures FateOf(low, pos, [len] + rest) == Then(BlockFate(low, pos, len), FateOf(low, Down(pos, len), rest))
  {
    assert ([len] + rest)[1..] == rest;
  }

  lemma {:induction false} FateOfConcat(low: int, pos: int, a: seq<nat>, b: seq<nat>)
    ensures EndOf(pos, a + b) == EndOf(EndOf(pos, a), b)
    ensures FateOf(low, pos, a + b) == Then(FateOf(low, pos, a), FateOf(low, EndOf(pos, a), b))
    decreases |a|
  {
    if a == [] {
      assert a + b == b;
    } else {
      assert (a + b)[1..] == a[1..] + b;
      FateOfConcat(low, Down(pos, a[0]), a[1..], b);
    }
  }

  /** Block `k` is the first that passes `low`. */
  ghost predicate FirstPast(low: int, pos: int, lens: seq<nat>, k: nat) {
    k < |lens| && Down(EndOf(pos, lens[..k]), lens[k]) < low <= EndOf(pos, lens[..k])
  }

  /** Blocks fit exactly if they end at or above `low`; otherwise there is a first block
      that passes it, and they are refused exactly if that one is no longer than the
      position it is pushed from. */
  lemma {:induction false} FateIsFirstPast(low: nat, pos: int, lens: seq<nat>) returns (k: nat)
    requires low <= pos
    ensures FateOf(low, pos, lens).Fits? <==> low <= EndOf(pos, lens)
    ensures !FateOf(low, pos, lens).Fits? ==>
      FirstPast(low, pos, lens, k) && (FateOf(low, pos, lens).Refused? <==> lens[k] <= EndOf(pos, lens[..k]))
    decreases |lens|
  {
    k := 0;
    if lens != [] && low <= Down(pos, lens[0]) {
      k := FateIsFirstPast(low, Down(pos, lens[0]), lens[1..]);
      if k < |lens| - 1 {
        assert lens[..k + 1][1..] == lens[1..][..k];
        k := k + 1;
      }
    }
  }

  /** The last of `i + 1` strings is pushed first. */
  lemma LastString(low: int, pos: int, strs: seq<seq<byte>>, i: nat)
    requires i < |strs|
    ensures var rest := Lengths(strs[..i]);
      && EndOf(pos, Lengths(strs[..i + 1])) == EndOf(Down(pos, |strs[i]| + 1), rest)
      && FateOf(low, pos, Lengths(strs[..i + 1])) ==
           Then(BlockFate(low, pos, |strs[i]| + 1), FateOf(low, Down(pos, |strs[i]| + 1), rest))
  {
    assert strs[..i + 1][..i] == strs[..i];
    PushedFirst(low, pos, |strs[i]| + 1, Lengths(strs[..i]));
  }

  /** An outcome of the kind that a fate says. */
  ghost predicate EndsAs<T>(r: Outcome<T>, fate: Fate) {
    match fate
    case Fits => r.Ok?
    case Refused => r == Err(ENOSPC)
    case Panics => r == Panic
  }

  /** Words below the blocks: their limit is looked at too late to refuse them. */
  function WithWords(fate: Fate, low: int, end: int): Fate {
    if fate.Fits? && end < low then Panics else fate
  }

  /** The table's size once the three entries that point into the stack are set. */
  ghost function FilledSize(t: AuxTable): nat {
    |AsMap(t).Keys + {AT_PLATFORM, AT_EXECFN, AT_RANDOM}|
  }

  lemma {:induction false} AsMapSize(t: AuxTable)
    requires Ordered(t)
    ensures |AsMap(t)| == |t|
    decreases |t|
  {
    if t != [] {
      var front, last := t[..|t| - 1], t[|t| - 1];
      AsMapSize(front);
      AsMapKeys(front);
      assert last.0 !in AsMap(front);
    }
  }

  lemma FilledSizeIs(before: AuxTable, after: AuxTable)
    requires Ordered(after)
    requires AsMap(after).Keys == AsMap(before).Keys + {AT_PLATFORM, AT_EXECFN, AT_RANDOM}
    ensures |after| == FilledSize(before)
  {
    AsMapSize(after);
    assert |AsMap(after).Keys| == |AsMap(after)|;
  }

  /** Something that was pushed: `bytes` from `addr` on. */
  datatype Placed = Placed(addr: nat, bytes: seq<byte>)

  /** The eight bytes from `a` on are those of the word. */
  ghost predicate WordAt(mem: map<nat, byte>, a: nat, w: u64) {
    Holds(mem, a, LittleEndian(w, WORD))
  }

  /** The words lie one above the other from `pos` on. */
  ghost predicate WordsAt(mem: map<nat, byte>, pos: nat, words: seq<u64>) {
    forall i {:trigger words[i]} :: 0 <= i < |words| ==> WordAt(mem, pos + 8 * i, words[i])
  }

  function WithWord(mem: map<nat, byte>, pos: nat, w: u64): map<nat, byte> {
    Stored(mem, pos, LittleEndian(w, WORD))
  }

  lemma NewWord(mem: map<nat, byte>, pos: nat, w: u64)
    requires Mapped(mem, pos, 8)
    ensures WordAt(WithWord(mem, pos, w), pos, w)
  {
  }

  lemma OldWord(mem: map<nat, byte>, pos: nat, w: u64, a: nat, old_w: u64)
    requires pos + 8 <= a && WordAt(mem, a, old_w)
    ensures WordAt(WithWord(mem, pos, w), a, old_w)
  {
  }

  lemma WordsAtNext(mem: map<nat, byte>, pos: nat, data: u64, words: seq<u64>)
    requires WordsAt(mem, pos + 8, words) && Mapped(mem, pos, 8)
    ensures WordsAt(WithWord(mem, pos, data), pos, [data] + words)
  {
    NewWord(mem, pos, data);
    forall i | 0 <= i < |[data] + words| ensures WordAt(WithWord(mem, pos, data), pos + 8 * i, ([data] + words)[i]) {
      if i > 0 {
        assert ([data] + words)[i] == words[i - 1] && pos + 8 * i == pos + 8 + 8 * (i - 1);
        OldWord(mem, pos, data, pos + 8 * i, words[i - 1]);
      }
    }
  }

  /** The strings from `i` on are placed where the pointers say, last one first. */
  ghost predicate ArePlaced(placed: set<Placed>, strs: seq<seq<byte>>, ptrs: seq<u64>, i: nat)
    requires i <= |strs| && |ptrs| == |strs| - i
  {
    forall k :: i <= k < |strs| ==> Placed(ptrs[|strs| - 1 - k], CString(strs[k])) in placed
  }

  lemma OneMorePlaced(placed: set<Placed>, placed': set<Placed>, strs: seq<seq<byte>>, ptrs: seq<u64>, i: nat,
                      addr: u64)
    requires i < |strs| && |ptrs| == |strs| - i - 1
    requires ArePlaced(placed, strs, ptrs, i + 1) && placed <= placed' && Placed(addr, CString(strs[i])) in placed'
    ensures ArePlaced(placed', strs, ptrs + [addr], i)
  {
  }

  class UserStack {
    const top: nat
    const size: nat
    const argv: seq<seq<byte>>
    const envp: seq<seq<byte>>
    const execPath: seq<byte>
    const platform: seq<byte>
    var pos: nat
    var aux: AuxTable

    /** The strings and other byte blocks pushed so far. */
    ghost var placed: set<Placed>

    /** The words pushed so far, from the position upward. */
    ghost var words: seq<u64>

    /** The lowest address of the stack. */
    ghost function Low(): int {
      top - size
    }

    /** The byte blocks that were pushed are still there, above the words. */
    ghost predicate BlocksIntact(mem: map<nat, byte>)
      reads this
    {
      forall b :: b in placed ==>
        pos + 8 * |words| <= b.addr && b.addr + |b.bytes| <= top && Holds(mem, b.addr, b.bytes)
    }

    /** What was pushed is still there, above the position. */
    ghost predicate Intact(mem: map<nat, byte>)
      reads this
    {
      && size <= top <= USIZE_RANGE - 1 && Low() <= pos <= top
      && (forall a: nat :: Low() <= a < top ==> a in mem)
      && pos + 8 * |words| <= top
      && BlocksIntact(mem)
      && WordsAt(mem, pos, words)
    }

    /** No memory outside the stack has changed. */
    ghost predicate KeptOutside(mem0: map<nat, byte>, mem: map<nat, byte>) {
      mem.Keys == mem0.Keys && forall a {:trigger mem[a]} :: a in mem0 && !(Low() <= a < top) ==> mem[a] == mem0[a]
    }

    /** The page below the stack is not mapped. */
    ghost predicate Guarded(mem: map<nat, byte>)
    {
      forall a: nat :: Low() - 8 <= a < Low() ==> a !in mem
    }

    constructor (top: nat, size: nat, argv: seq<seq<byte>>, envp: seq<seq<byte>>, aux: AuxTable,
                 execPath: seq<byte>, platform: seq<byte>)
      ensures this.top == top && this.size == size && this.argv == argv && this.envp == envp
      ensures this.execPath == execPath && this.platform == platform
      ensures this.aux == aux && pos == top && placed == {} && words == []
    {
      this.top, this.size, this.argv, this.envp := top, size, argv, envp;
      this.execPath, this.platform, this.aux, this.pos := execPath, platform, aux, top;
      placed, words := {}, [];
    }

    method PushBytes(vm: VmSpace, data: seq<byte>) returns (r: Outcome<u64>)
      requires Intact(vm.mem) && words == []
      modifies this`pos, this`placed, vm`mem
      ensures KeptOutside(old(vm.mem), vm.mem)
      ensures EndsAs(r, BlockFate(Low(), old(pos), |data|))
      ensures r.Ok? ==> Intact(vm.mem) && r.value == pos == Down(old(pos), |data|)
      ensures r.Ok? ==> placed == old(placed) + {Placed(pos, data)}
    {
      if pos < |data| {
        return Panic;
      }
      pos := Down(pos, |data|);
      if pos < top - size {
        return Err(ENOSPC);
      }
      var ok := vm.WriteBytes(pos, data);
      placed := placed + {Placed(pos, data)};
      r := Ok(pos);
    }

    method PushU64(vm: VmSpace, data: u64) returns (r: Outcome<u64>)
      requires Intact(vm.mem) && Guarded(vm.mem)
      modifies this`pos, this`words, vm`mem
      ensures KeptOutside(old(vm.mem), vm.mem)
      ensures r == if Low() <= old(pos) - 8 then Ok(old(pos) - 8) else Panic
      ensures r.Ok? ==> Intact(vm.mem) && r.value == pos && words == [data] + old(words)
    {
      if pos < top - size {
        return Err(ENOSPC);
      }
      if pos < 8 {
        return Panic;
      }
      pos := pos - 8;
      assert pos < Low() ==> pos !in vm.mem;
      if Mapped(vm.mem, pos, 8) {
        WordsAtNext(vm.mem, pos, data, words);
      }
      var ok := vm.WriteBytes(pos, LittleEndian(data, WORD));
      if !ok {
        return Panic;
      }
      words := [data] + words;
      r := Ok(pos);
    }

    method AlignTo8() returns (r: Outcome<u64>)
      requires size <= top <= USIZE_RANGE - 1 && pos <= top
      modifies this`pos
      ensures EndsAs(r, BlockFate(Low(), old(pos), 0))
      ensures r.Ok? ==> r.value == pos == Down(old(pos), 0)
    {
      var newPos := Down(pos, 0);
      if newPos < top - size {
        return Err(ENOSPC);
      }
      pos := newPos;
      r := Ok(pos);
    }

    /** Pushes the strings, last one first, and returns their addresses in that
        order. */
    method PushStrings(vm: VmSpace, strs: seq<seq<byte>>) returns (r: Outcome<seq<u64>>)
      requires Intact(vm.mem) && words == []
      modifies this`pos, this`placed, vm`mem
      ensures KeptOutside(old(vm.mem), vm.mem)
      ensures EndsAs(r, FateOf(Low(), old(pos), Lengths(strs)))
      ensures r.Ok? ==> Intact(vm.mem) && pos == EndOf(old(pos), Lengths(strs))
      ensures r.Ok? ==> old(placed) <= placed && |r.value| == |strs|
      ensures r.Ok? ==> forall i :: 0 <= i < |strs| ==> Placed(r.value[|strs| - 1 - i], CString(strs[i])) in placed
    {
      var ptrs: seq<u64> := [];
      var i := |strs|;
      ghost var mem0, pos0, placed0 := vm.mem, pos, placed;
      assert strs[..i] == strs;
      while i > 0
        invariant 0 <= i <= |strs| && |ptrs| == |strs| - i
        invariant KeptOutside(mem0, vm.mem) && Intact(vm.mem)
        invariant EndOf(pos, Lengths(strs[..i])) == EndOf(pos0, Lengths(strs))
        invariant FateOf(Low(), pos, Lengths(strs[..i])) == FateOf(Low(), pos0, Lengths(strs))
        invariant placed0 <= placed && ArePlaced(placed, strs, ptrs, i)
      {
        i := i - 1;
        LastString(Low(), pos, strs, i);
        var addr :- PushString(vm, strs, i, ptrs);
        ptrs := ptrs + [addr];
      }
      assert strs[..0] == [];
      r := Ok(ptrs);
    }

    /** Pushes one of the strings, when those behind it are placed. */
    method PushString(vm: VmSpace, strs: seq<seq<byte>>, i: nat, ghost ptrs: seq<u64>) returns (r: Outcome<u64>)
      requires Intact(vm.mem) && words == [] && i < |strs| && |ptrs| == |strs| - i - 1
      requires ArePlaced(placed, strs, ptrs, i + 1)
      modifies this`pos, this`placed, vm`mem
      ensures KeptOutside(old(vm.mem), vm.mem)
      ensures EndsAs(r, BlockFate(Low(), old(pos), |strs[i]| + 1))
      ensures r.Ok? ==> Intact(vm.mem) && pos == Down(old(pos), |strs[i]| + 1)
      ensures r.Ok? ==> old(placed) <= placed && ArePlaced(placed, strs, ptrs + [r.value], i)
    {
      r := PushBytes(vm, CString(strs[i]));
      if r.Ok? {
        OneMorePlaced(old(placed), placed, strs, ptrs, i, r.value);
      }
    }

    /** Pushes words one below the other. */
    method PushVecU64(vm: VmSpace, data: seq<u64>) returns (r: Outcome<()>)
      requires Intact(vm.mem) && Guarded(vm.mem)
      modifies this`pos, this`words, vm`mem
      ensures KeptOutside(old(vm.mem), vm.mem)
      ensures r == if Low() <= old(pos) - 8 * |data| then Ok(()) else Panic
      ensures r.Ok? ==> Intact(vm.mem) && pos == old(pos) - 8 * |data| && words == Reverse(data) + old(words)
    {
      for i := 0 to |data|
        invariant KeptOutside(old(vm.mem), vm.mem) && Intact(vm.mem)
        invariant pos == old(pos) - 8 * i
        invariant words == Reverse(data[..i]) + old(words)
      {
        var addr :- PushU64(vm, data[i]);
        ReverseNext(data, i, old(words));
      }
      assert data[..|data|] == data;
      r := Ok(());
    }

    method SetAux(key: u64, val: u64) returns (r: Outcome<()>)
      requires Ordered(aux)
      modifies this`aux
      ensures r == if key == AT_NULL || key == AT_IGNORE then Err(EINVAL) else Ok(())
      ensures Ordered(aux) && AsMap(aux) == if r.Ok? then AsMap(old(aux))[key := val] else AsMap(old(aux))
    {
      if key == 0 || key == AT_IGNORE {
        return Err(EINVAL);
      }
      InsertOrderedStaysOrdered(aux, key, val);
      InsertOrderedIsUpdate(aux, key, val);
      aux := InsertOrdered(aux, key, val);
      r := Ok(());
    }

    /** Pushes the terminator and the key/value pairs of the table. */
    method PushPairs(vm: VmSpace) returns (r: Outcome<()>)
      requires Intact(vm.mem) && Guarded(vm.mem)
      modifies this`pos, this`words, vm`mem
      ensures KeptOutside(old(vm.mem), vm.mem)
      ensures r == if Low() <= old(pos) - 8 * (2 * |aux| + 1) then Ok(()) else Panic
      ensures r.Ok? ==> Intact(vm.mem) && pos == old(pos) - 8 * (2 * |aux| + 1)
      ensures r.Ok? ==> words == PairWords(aux) + ([0] + old(words))
    {
      var addr :- PushU64(vm, 0);
      for i := 0 to |aux|
        invariant KeptOutside(old(vm.mem), vm.mem) && Intact(vm.mem)
        invariant pos == old(pos) - 8 * (2 * i + 1)
        invariant words == PairWords(aux[..i]) + ([0] + old(words))
      {
        var addr :- PushU64(vm, aux[i].1);
        addr :- PushU64(vm, aux[i].0);
        PairWordsNext(aux, i, [0] + old(words));
      }
      assert aux[..|aux|] == aux;
      r := Ok(());
    }

    /** The blocks of the strings, with the alignment that follows them. */
    ghost function StringBlocks(): seq<nat> {
      Lengths(envp) + Lengths(argv) + [0]
    }

    /** The random bytes, the padding and the two strings that the table points at. */
    ghost function AuxBlocks(): seq<nat> {
      [16, 8, |platform| + 1, |execPath| + 1]
    }

    lemma StringBlocksInOrder(from: int)
      ensures var (a, b) := (EndOf(from, Lengths(envp)), EndOf(EndOf(from, Lengths(envp)), Lengths(argv)));
        && EndOf(from, StringBlocks()) == Down(b, 0)
        && FateOf(Low(), from, StringBlocks()) == Then(FateOf(Low(), from, Lengths(envp)),
             Then(FateOf(Low(), a, Lengths(argv)), BlockFate(Low(), b, 0)))
    {
      var b := EndOf(EndOf(from, Lengths(envp)), Lengths(argv));
      FateOfConcat(Low(), from, Lengths(envp) + Lengths(argv), [0]);
      FateOfConcat(Low(), from, Lengths(envp), Lengths(argv));
      PushedFirst(Low(), b, 0, []);
      assert [0] + [] == [0];
    }

    lemma AuxBlocksInOrder(from: int)
      ensures var (a, b, c) := (Down(from, 16), Down(Down(from, 16), 8), Down(Down(Down(from, 16), 8), |platform| + 1));
        && EndOf(from, AuxBlocks()) == Down(c, |execPath| + 1)
        && FateOf(Low(), from, AuxBlocks()) == Then(BlockFate(Low(), from, 16), Then(BlockFate(Low(), a, 8),
             Then(BlockFate(Low(), b, |platform| + 1), BlockFate(Low(), c, |execPath| + 1))))
    {
      var (a, b, c) := (Down(from, 16), Down(Down(from, 16), 8), Down(Down(Down(from, 16), 8), |platform| + 1));
      var last := [|execPath| + 1] + [];
      PushedFirst(Low(), from, 16, [8] + ([|platform| + 1] + last));
      PushedFirst(Low(), a, 8, [|platform| + 1] + last);
      PushedFirst(Low(), b, |platform| + 1, last);
      PushedFirst(Low(), c, |execPath| + 1, []);
      assert AuxBlocks() == [16] + ([8] + ([|platform| + 1] + last));
    }

    /** All byte blocks of an image, in the order in which they are pushed. */
    ghost function Blocks(): seq<nat> {
      StringBlocks() + AuxBlocks()
    }

    /** The position below the auxiliary table, pushed from `pos` on. */
    ghost function AuxEnd(pos: int, table: AuxTable): int {
      EndOf(pos, AuxBlocks()) - 8 * (2 * FilledSize(table) + 1)
    }

    /** Pushes the random bytes, the padding and the two strings; returns where the
        platform string, the path and the random bytes are. */
    method PushAuxBytes(vm: VmSpace) returns (r: Outcome<(u64, u64, u64)>)
      requires Intact(vm.mem) && words == []
      modifies this`pos, this`placed, vm`mem
      ensures KeptOutside(old(vm.mem), vm.mem)
      ensures EndsAs(r, FateOf(Low(), old(pos), AuxBlocks()))
      ensures r.Ok? ==> Intact(vm.mem) && pos == EndOf(old(pos), AuxBlocks()) && old(placed) <= placed
      ensures r.Ok? ==> Placed(r.value.0, CString(platform)) in placed
      ensures r.Ok? ==> Placed(r.value.1, CString(execPath)) in placed
      ensures r.Ok? ==> Placed(r.value.2, seq(16, _ => 0)) in placed
    {
      AuxBlocksInOrder(pos);
      var randomPtr :- PushBytes(vm, seq(16, _ => 0));
      var padding :- PushBytes(vm, seq(8, _ => 0));
      var platformPtr :- PushBytes(vm, CString(platform));
      var exPath :- PushBytes(vm, CString(execPath));
      r := Ok((platformPtr, exPath, randomPtr));
    }

    /** Enters the three addresses in the table. None of the keys is one that the
        table refuses, so no error can come back. */
    method FillTable(ptrs: (u64, u64, u64))
      requires Ordered(aux)
      modifies this`aux
      ensures Ordered(aux)
      ensures AsMap(aux) == AsMap(old(aux))[AT_PLATFORM := ptrs.0][AT_EXECFN := ptrs.1][AT_RANDOM := ptrs.2]
      ensures |aux| == FilledSize(old(aux))
    {
      var done := SetAux(AT_PLATFORM, ptrs.0);
      done := SetAux(AT_EXECFN, ptrs.1);
      done := SetAux(AT_RANDOM, ptrs.2);
      FilledSizeIs(old(aux), aux);
    }

    /** Pushes the byte blocks the table points at, fills the table in, and pushes
        the table. */
    method PushAuxVec(vm: VmSpace) returns (r: Outcome<()>)
      requires Intact(vm.mem) && Guarded(vm.mem) && words == [] && Ordered(aux)
      modifies this, vm`mem
      ensures KeptOutside(old(vm.mem), vm.mem)
      ensures EndsAs(r, WithWords(FateOf(Low(), old(pos), AuxBlocks()), Low(), AuxEnd(old(pos), old(aux))))
      ensures r.Ok? ==> Intact(vm.mem) && words == PairWords(aux) + [0] && old(placed) <= placed
      ensures r.Ok? ==> Ordered(aux) && FilledIn(AsMap(old(aux)), AsMap(aux)) && |aux| == FilledSize(old(aux))
      ensures r.Ok? ==> pos == AuxEnd(old(pos), old(aux))
    {
      var ptrs :- PushAuxBytes(vm);
      FillTable(ptrs);
      r := PushPairs(vm);
    }

    /** The table gained exactly the three entries, and they point at what they name. */
    ghost predicate FilledIn(before: map<u64, u64>, after: map<u64, u64>)
      reads this
    {
      && AT_PLATFORM in after && AT_EXECFN in after && AT_RANDOM in after
      && after ==
           before[AT_PLATFORM := after[AT_PLATFORM]][AT_EXECFN := after[AT_EXECFN]][AT_RANDOM := after[AT_RANDOM]]
      && Placed(after[AT_PLATFORM], CString(platform)) in placed
      && Placed(after[AT_EXECFN], CString(execPath)) in placed
      && Placed(after[AT_RANDOM], seq(16, _ => 0)) in placed
    }

    /** The position below the last byte block of the whole image. */
    ghost function BytesEnd(): (r: int)
      ensures r % 8 == 0
    {
      FateOfConcat(Low(), top, StringBlocks(), AuxBlocks());
      EndOf(top, Blocks())
    }

    /** Where the image ends: the stack pointer, if the stack is large enough. The
        words are argc, the two vectors with their NULLs, and the auxiliary pairs
        with their terminator. */
    ghost function EntryPointer(table: AuxTable): int {
      BytesEnd() - 8 * (1 + (|argv| + 1) + (|envp| + 1) + (2 * FilledSize(table) + 1))
    }

    /** What becomes of the whole image: its byte blocks fit, are refused or panic, and if
        they fit but the words do not, it panics. */
    ghost function ImageFate(table: AuxTable): Fate {
      WithWords(FateOf(Low(), top, Blocks()), Low(), EntryPointer(table))
    }

    /** Pushes the environment and argument strings; returns their addresses. */
    method PushAllStrings(vm: VmSpace) returns (r: Outcome<(seq<u64>, seq<u64>)>)
      requires Intact(vm.mem) && words == []
      modifies this`pos, this`placed, vm`mem
      ensures KeptOutside(old(vm.mem), vm.mem)
      ensures EndsAs(r, FateOf(Low(), old(pos), StringBlocks()))
      ensures r.Ok? ==> Intact(vm.mem) && pos == EndOf(old(pos), StringBlocks())
      ensures r.Ok? ==> PointAt(Reverse(r.value.0), envp) && PointAt(Reverse(r.value.1), argv)
    {
      StringBlocksInOrder(pos);
      var envpPointers :- PushStrings(vm, envp);
      var argvPointers :- PushArgumentsAndAlign(vm);
      r := Ok((envpPointers, argvPointers));
    }

    method PushArgumentsAndAlign(vm: VmSpace) returns (r: Outcome<seq<u64>>)
      requires Intact(vm.mem) && words == []
      modifies this`pos, this`placed, vm`mem
      ensures KeptOutside(old(vm.mem), vm.mem)
      ensures EndsAs(r, Then(FateOf(Low(), old(pos), Lengths(argv)),
        BlockFate(Low(), EndOf(old(pos), Lengths(argv)), 0)))
      ensures r.Ok? ==> Intact(vm.mem) && pos == Down(EndOf(old(pos), Lengths(argv)), 0)
      ensures r.Ok? ==> old(placed) <= placed && PointAt(Reverse(r.value), argv)
    {
      r := PushStrings(vm, argv);
      if r.Ok? {
        var aligned := AlignTo8();
        if aligned.Err? {
          r := Err(aligned.error);
        }
      }
    }

    /** The pointers point at the strings, in order. */
    ghost predicate PointAt(ptrs: seq<u64>, strs: seq<seq<byte>>)
      reads this
    {
      |ptrs| == |strs| && forall i :: 0 <= i < |strs| ==> Placed(ptrs[i], CString(strs[i])) in placed
    }

    /** Pushes the two vectors, each below its NULL, and then argc. */
    method PushVectors(vm: VmSpace, envpPointers: seq<u64>, argvPointers: seq<u64>, argc: u64) returns (r: Outcome<u64>)
      requires Intact(vm.mem) && Guarded(vm.mem) && words == PairWords(aux) + [0]
      modifies this`pos, this`words, vm`mem
      ensures KeptOutside(old(vm.mem), vm.mem)
      ensures r == if Low() <= old(pos) - 8 * (1 + (|argvPointers| + 1) + (|envpPointers| + 1)) then Ok(pos) else Panic
      ensures r.Ok? ==> Intact(vm.mem) && pos == old(pos) - 8 * (1 + (|argvPointers| + 1) + (|envpPointers| + 1))
      ensures r.Ok? ==> words == Layout(argc, Reverse(argvPointers), Reverse(envpPointers), aux)
    {
      var addr :- PushU64(vm, 0);
      var done :- PushVecU64(vm, envpPointers);
      addr :- PushU64(vm, 0);
      done :- PushVecU64(vm, argvPointers);
      r := PushU64(vm, argc);
    }

    /** The state before the first push. */
    ghost predicate Ready(mem: map<nat, byte>)
      reads this
    {
      && pos == top && placed == {} && words == [] && 0 < size < top < USIZE_RANGE
      && (forall a: nat :: Low() <= a < top ==> a in mem)
      && Guarded(mem)
      && Ordered(aux) && AT_NULL !in AsMap(aux)
      && |argv| < USIZE_RANGE
    }

    lemma IntactWords(mem: map<nat, byte>)
      requires Intact(mem)
      ensures HoldsWords(WordsOf(mem), pos, words)
    {
      WordsHeld(mem, pos, words);
    }

    /** The strings and the auxiliary table. */
    method PushStringsAndTable(vm: VmSpace) returns (r: Outcome<(seq<u64>, seq<u64>)>)
      requires Ready(vm.mem)
      modifies this, vm`mem
      ensures KeptOutside(old(vm.mem), vm.mem)
      ensures EndsAs(r, WithWords(FateOf(Low(), top, Blocks()), Low(), BytesEnd() - 8 * (2 * FilledSize(old(aux)) + 1)))
      ensures r.Ok? ==> Intact(vm.mem) && words == PairWords(aux) + [0] && |aux| == FilledSize(old(aux))
      ensures r.Ok? ==> pos == BytesEnd() - 8 * (2 * FilledSize(old(aux)) + 1)
      ensures r.Ok? ==> FilledIn(AsMap(old(aux)), AsMap(aux)) && Ordered(aux)
      ensures r.Ok? ==> PointAt(Reverse(r.value.0), envp) && PointAt(Reverse(r.value.1), argv)
    {
      FateOfConcat(Low(), top, StringBlocks(), AuxBlocks());
      var ptrs :- PushAllStrings(vm);
      var done :- PushAuxVec(vm);
      r := Ok(ptrs);
    }

    /** All the pushes, in order. */
    method PushImage(vm: VmSpace) returns (r: Outcome<u64>, ghost argvPtrs: seq<u64>, ghost envpPtrs: seq<u64>)
      requires Ready(vm.mem)
      modifies this, vm`mem
      ensures KeptOutside(old(vm.mem), vm.mem)
      ensures EndsAs(r, ImageFate(old(aux)))
      ensures r.Ok? ==> r.value == pos == EntryPointer(old(aux)) && Intact(vm.mem)
      ensures r.Ok? ==> FilledIn(AsMap(old(aux)), AsMap(aux)) && Ordered(aux)
      ensures r.Ok? ==> PointAt(argvPtrs, argv) && PointAt(envpPtrs, envp)
      ensures r.Ok? ==> words == Layout(|argv|, argvPtrs, envpPtrs, aux)
    {
      argvPtrs, envpPtrs := [], [];
      var strings := PushStringsAndTable(vm);
      if strings.IsFailure() {
        r := strings.PropagateFailure();
        return;
      }
      argvPtrs, envpPtrs := Reverse(strings.value.1), Reverse(strings.value.0);
      r := PushVectors(vm, strings.value.0, strings.value.1, |argv|);
    }

    /** Builds the image. It succeeds exactly when the stack has room for it, and then
        the memory, read upward from the returned pointer, is the image asked for. */
    method Init(vm: VmSpace) returns (r: Outcome<u64>)
      requires Ready(vm.mem)
      modifies this, vm`mem
      ensures KeptOutside(old(vm.mem), vm.mem)
      ensures EndsAs(r, ImageFate(old(aux)))
      ensures r.Ok? ==> r.value == EntryPointer(old(aux)) && r.value in WordsOf(vm.mem)
      ensures r.Ok? ==> BlocksIntact(vm.mem) && FilledIn(AsMap(old(aux)), AsMap(aux)) && Ordered(aux)
      ensures r.Ok? ==> var image := Image(|argv|, UpToNulAll(argv), UpToNulAll(envp), Reverse(aux));
        ParseImage(vm.mem, WordsOf(vm.mem), r.value, top) == image
    {
      ghost var argvPtrs, envpPtrs;
      r, argvPtrs, envpPtrs := PushImage(vm);
      if r.Ok? {
        ImageReads(vm.mem, argvPtrs, envpPtrs);
      }
    }

    lemma ImageReads(mem: map<nat, byte>, argvPtrs: seq<u64>, envpPtrs: seq<u64>)
      requires Intact(mem) && 0 < size < top
      requires |argv| < USIZE_RANGE && PointAt(argvPtrs, argv) && PointAt(envpPtrs, envp)
      requires words == Layout(|argv|, argvPtrs, envpPtrs, aux)
      requires AT_NULL !in AsMap(aux) && Ordered(aux)
      ensures pos in WordsOf(mem)
      ensures ParseImage(mem, WordsOf(mem), pos, top) == Image(|argv|, UpToNulAll(argv), UpToNulAll(envp), Reverse(aux))
    {
      IntactWords(mem);
      ImageWordsJoined(|argv|, argvPtrs, envpPtrs, aux);
      ImageParses(mem, WordsOf(mem), argvPtrs, envpPtrs);
    }

    /** Memory that holds the words of an image, and the strings they point at, parses
        as that image. */
    lemma {:induction false} ImageParses(mem: map<nat, byte>, view: WordView, argvPtrs: seq<u64>, envpPtrs: seq<u64>)
      requires BlocksIntact(mem) && 0 < pos && pos + 8 * |words| <= top
      requires |argv| < USIZE_RANGE && PointAt(argvPtrs, argv) && PointAt(envpPtrs, envp)
      requires ImageWords(words, |argv|, argvPtrs, envpPtrs, aux) && HoldsWords(view, pos, words)
      requires AT_NULL !in AsMap(aux) && Ordered(aux)
      ensures pos in view
      ensures ParseImage(mem, view, pos, top) == Image(|argv|, UpToNulAll(argv), UpToNulAll(envp), Reverse(aux))
    {
      NoNullKeys(aux);
      assert forall i :: 0 <= i < |argvPtrs| ==> argvPtrs[i] != 0;
      assert forall i :: 0 <= i < |envpPtrs| ==> envpPtrs[i] != 0;
      WordsImage(view, pos, top, words, |argv|, argvPtrs, envpPtrs, aux);
      StringsParse(mem, argvPtrs, argv);
      StringsParse(mem, envpPtrs, envp);
      assert Vector(view, pos, 1, top) == argvPtrs;
    }

    lemma {:induction false} StringsParse(mem: map<nat, byte>, ptrs: seq<u64>, strs: seq<seq<byte>>)
      requires BlocksIntact(mem) && PointAt(ptrs, strs)
      ensures ParseStrings(mem, top, ptrs) == UpToNulAll(strs)
      decreases |strs|
    {
      if strs != [] {
        assert Placed(ptrs[0], CString(strs[0])) in placed;
        StringParses(mem, ptrs[0], top, strs[0]);
        StringsParse(mem, ptrs[1..], strs[1..]);
      }
    }
  }

  /** Section 3.4.1 asks for a stack pointer that is a multiple of 16 at entry. The
      image is only aligned to eight, so the pointer is such a multiple just when the
      byte blocks end on the half that the number of strings asks for. */
  lemma {:induction false} EntryAlignment(s: UserStack, table: AuxTable)
    ensures s.EntryPointer(table) % 8 == 0
    ensures s.EntryPointer(table) % 16 == 0 <==> s.BytesEnd() % 16 == 8 * ((|s.argv| + |s.envp|) % 2)
  {
    var words := 1 + (|s.argv| + 1) + (|s.envp| + 1) + (2 * FilledSize(table) + 1);
    HalfSteps(s.BytesEnd() / 8, words, |s.argv| + |s.envp|, FilledSize(table) + 2);
  }

  lemma HalfSteps(q: int, words: int, strings: int, pairs: int)
    requires words == strings + 2 * pairs
    ensures (8 * q - 8 * words) % 8 == 0
    ensures (8 * q - 8 * words) % 16 == 0 <==> 8 * q % 16 == 8 * (strings % 2)
  {
    Eights(q);
    Eights(q - words);
    SameParity(q, strings, pairs);
    assert 8 * (q - words) == 8 * q - 8 * words;
  }

  lemma SameParity(q: int, strings: int, pairs: int)
    ensures (q - (strings + 2 * pairs)) % 2 == 0 <==> q % 2 == strings % 2
  {
    assert q - (strings + 2 * pairs) == (q - strings) + 2 * (0 - pairs);
  }

  lemma Eights(x: int)
    ensures 8 * x % 16 == 8 * (x % 2)
  {
    assert 8 * x == 16 * (x / 2) + 8 * (x % 2);
  }

  lemma DownShort(pos: int, len: nat)
    requires pos % 8 == 0 && 1 <= len <= 8
    ensures Down(pos, len) == pos - 8
  {
  }

  lemma DownTwo(pos: int)
    requires pos % 8 == 0
    ensures Down(pos, 16) == pos - 16 && (pos - 16) % 8 == 0 && (pos - 24) % 8 == 0 && (pos - 32) % 8 == 0
  {
  }

  /** Where the auxiliary blocks end if platform and path are short. */
  lemma ShortAuxBlocks(s: UserStack, pos: int)
    requires pos % 8 == 0 && |s.platform| <= 7 && |s.execPath| <= 7
    ensures EndOf(pos, s.AuxBlocks()) == pos - 40
  {
    s.AuxBlocksInOrder(pos);
    DownTwo(pos);
    DownShort(pos - 16, 8);
    DownShort(pos - 24, |s.platform| + 1);
    DownShort(pos - 32, |s.execPath| + 1);
  }

  ghost predicate Short(strs: seq<seq<byte>>) {
    forall i :: 0 <= i < |strs| ==> |strs[i]| <= 7
  }

  /** All strings of a process that takes short ones only, and where its blocks end. */
  ghost predicate ShortProcess(s: UserStack) {
    Short(s.argv) && Short(s.envp) && |s.platform| <= 7 && |s.execPath| <= 7
  }

  lemma {:induction false} ShortStrings(pos: int, strs: seq<seq<byte>>)
    requires pos % 8 == 0 && Short(strs)
    ensures EndOf(pos, Lengths(strs)) == pos - 8 * |strs|
    decreases |strs|
  {
    if strs != [] {
      var front, last := strs[..|strs| - 1], strs[|strs| - 1];
      PushedFirst(0, pos, |last| + 1, Lengths(front));
      DownShort(pos, |last| + 1);
      ShortStrings(pos - 8, front);
    }
  }

  lemma ShortEnd(s: UserStack)
    requires s.top % 8 == 0 && ShortProcess(s)
    ensures s.BytesEnd() == s.top - 8 * (|s.argv| + |s.envp|) - 40
  {
    var a, b := s.top - 8 * |s.envp|, s.top - 8 * (|s.argv| + |s.envp|);
    ShortStrings(s.top, s.envp);
    ShortStrings(a, s.argv);
    s.StringBlocksInOrder(s.top);
    FateOfConcat(s.Low(), s.top, s.StringBlocks(), s.AuxBlocks());
    ShortAuxBlocks(s, b);
  }

  lemma EightOff(x: int, top: int, m: nat)
    requires top % 16 == 0 && x == top - 16 * m - 72
    ensures top % 8 == 0 && x % 16 == 8
  {
    assert top == 16 * (top / 16);
  }

  /** Every process whose strings are all short starts off the alignment, whatever its
      auxiliary table holds: its image fits, and the pointer is eight off. */
  lemma EntryCanBeMisaligned(s: UserStack, table: AuxTable)
    requires s.top % 16 == 0 && 0 < s.size < s.top && s.Low() <= s.EntryPointer(table) && ShortProcess(s)
    ensures s.ImageFate(table) == Fits && s.EntryPointer(table) % 16 == 8
  {
    var m := |s.argv| + |s.envp| + FilledSize(table);
    EightOff(s.top - 16 * m - 72, s.top, m);
    ShortEnd(s);
    FitsDownTo(s, table);
  }

  /** If there is room down to the pointer, the image fits. */
  lemma FitsDownTo(s: UserStack, table: AuxTable)
    requires 0 < s.size < s.top && s.Low() <= s.EntryPointer(table)
    ensures s.ImageFate(table) == Fits
  {
    var k := FateIsFirstPast(s.Low(), s.top, s.Blocks());
  }

  /** A stack of any size can be large enough for the byte blocks and too small for the
      words: with so many short strings, starting the process panics. */
  lemma OnlyWordsDoNotFit(s: UserStack, table: AuxTable)
    requires s.top % 8 == 0 && 0 < s.size < s.top && ShortProcess(s)
    requires 8 * (|s.argv| + |s.envp|) + 40 <= s.size < 16 * (|s.argv| + |s.envp|) + 40
    ensures FateOf(s.Low(), s.top, s.Blocks()) == Fits && s.ImageFate(table) == Panics
  {
    ShortEnd(s);
    var k := FateIsFirstPast(s.Low(), s.top, s.Blocks());
  }

  /** An argument longer than the stack, when the strings pushed before it fit: it panics if
      it is as long as the position it is pushed from is high, and is refused otherwise. */
  lemma LongArgument(s: UserStack, table: AuxTable, i: nat)
    requires i < |s.argv| && s.size < |s.argv[i]| && 0 < s.size < s.top
    requires FateOf(s.Low(), s.top, Lengths(s.envp) + Lengths(s.argv[i + 1..])) == Fits
    ensures s.ImageFate(table) ==
      if EndOf(s.top, Lengths(s.envp) + Lengths(s.argv[i + 1..])) <= |s.argv[i]| then Panics else Refused
  {
    var before, last := Lengths(s.envp) + Lengths(s.argv[i + 1..]), [0] + s.AuxBlocks();
    var block, after := |s.argv[i]| + 1, Lengths(s.argv[..i]);
    LengthsAround(s.argv, i);
    Joined(Lengths(s.envp) + Lengths(s.argv), [0], s.AuxBlocks());
    Joined(Lengths(s.envp), Lengths(s.argv[i + 1..]), [block] + after);
    Regrouped(before, block, after, last);
    FateOfConcat(s.Low(), s.top, before, [block] + (after + last));
    PushedFirst(s.Low(), EndOf(s.top, before), block, after + last);
  }

  /** The same of an environment string. */
  lemma LongEnvironmentString(s: UserStack, table: AuxTable, i: nat)
    requires i < |s.envp| && s.size < |s.envp[i]| && 0 < s.size < s.top
    requires FateOf(s.Low(), s.top, Lengths(s.envp[i + 1..])) == Fits
    ensures s.ImageFate(table) == if EndOf(s.top, Lengths(s.envp[i + 1..])) <= |s.envp[i]| then Panics else Refused
  {
    var before, last := Lengths(s.envp[i + 1..]), Lengths(s.argv) + ([0] + s.AuxBlocks());
    var block, after := |s.envp[i]| + 1, Lengths(s.envp[..i]);
    LengthsAround(s.envp, i);
    assert s.Blocks() == Lengths(s.envp) + last;
    Regrouped(before, block, after, last);
    FateOfConcat(s.Low(), s.top, before, [block] + (after + last));
    PushedFirst(s.Low(), EndOf(s.top, before), block, after + last);
  }

  lemma LengthsAround(strs: seq<seq<byte>>, i: nat)
    requires i < |strs|
    ensures Lengths(strs) == Lengths(strs[i + 1..]) + ([|strs[i]| + 1] + Lengths(strs[..i]))
  {
    assert strs[..i + 1][..i] == strs[..i];
    assert strs == strs[..i + 1] + strs[i + 1..];
    LengthsConcat(strs[..i + 1], strs[i + 1..]);
  }

  lemma {:induction false} LengthsConcat(a: seq<seq<byte>>, b: seq<seq<byte>>)
    ensures Lengths(a + b) == Lengths(b) + Lengths(a)
    decreases |b|
  {
    if b == [] {
      assert a + b == a;
    } else {
      var front, x := b[..|b| - 1], b[|b| - 1];
      assert a + b == (a + front) + [x];
      LengthsLast(a + front, x);
      LengthsConcat(a, front);
      Regrouped([], |x| + 1, Lengths(front), Lengths(a));
    }
  }

  lemma LengthsLast(strs: seq<seq<byte>>, x: seq<byte>)
    ensures Lengths(strs + [x]) == [|x| + 1] + Lengths(strs)
  {
    assert (strs + [x])[..|strs|] == strs;
  }

  lemma Joined(a: seq<nat>, b: seq<nat>, c: seq<nat>)
    ensures a + b + c == a + (b + c)
  {
  }

  /** Blocks around one of them, in other brackets. */
  lemma Regrouped(before: seq<nat>, block: nat, after: seq<nat>, last: seq<nat>)
    ensures before + ([block] + after) + last == before + ([block] + (after + last))
    ensures [block] + (after + last) == [block] + after + last
  {
  }

  // ---------------------------------------------------------------- reading it back

  /** What a program finds on its stack. */
  datatype Image = Image(argc: nat, argv: seq<seq<byte>>, envp: seq<seq<byte>>, aux: AuxTable)

  /** Memory seen word by word. */
  type WordView = map<nat, u64>

  ghost function WordsOf(mem: map<nat, byte>): WordView {
    map a | a in mem && Mapped(mem, a, 8) :: Word(mem, a)
  }

  /** The words from `a` up to the first zero. */
  ghost function ParseWords(view: WordView, a: nat, top: nat): seq<u64>
    decreases top - a
  {
    if a >= top || a !in view || view[a] == 0 then [] else [view[a]] + ParseWords(view, a + 8, top)
  }

  /** The pairs from `a` up to the first zero key. */
  ghost function ParsePairs(view: WordView, a: nat, top: nat): AuxTable
    decreases top - a
  {
    if a >= top || a !in view || view[a] == 0 || a + 8 !in view then []
    else [(view[a], view[a + 8])] + ParsePairs(view, a + 16, top)
  }

  /** The bytes from `a` up to the first NUL. */
  ghost function ParseString(mem: map<nat, byte>, a: nat, top: nat): seq<byte>
    decreases top - a
  {
    if a >= top || a !in mem || mem[a] == 0 then [] else [mem[a]] + ParseString(mem, a + 1, top)
  }

  ghost function ParseStrings(mem: map<nat, byte>, top: nat, ptrs: seq<u64>): seq<seq<byte>> {
    if ptrs == [] then [] else [ParseString(mem, ptrs[0], top)] + ParseStrings(mem, top, ptrs[1..])
  }

  /** Reads the image upward from the stack pointer: argc, the argument pointers up to
      NULL, the environment pointers up to NULL, and the auxiliary pairs. */
  ghost function ParseImage(mem: map<nat, byte>, view: WordView, sp: nat, top: nat): Image
    requires sp in view
  {
    var args := Vector(view, sp, 1, top);
    var envs := Vector(view, sp, |args| + 2, top);
    Image(view[sp], ParseStrings(mem, top, args), ParseStrings(mem, top, envs),
      Pairs(view, sp, |args| + |envs| + 3, top))
  }

  /** The vector that starts with word `i`. */
  ghost function Vector(view: WordView, sp: nat, i: nat, top: nat): seq<u64> {
    ParseWords(view, sp + 8 * i, top)
  }

  /** The pairs from word `i` on. */
  ghost function Pairs(view: WordView, sp: nat, i: nat, top: nat): AuxTable {
    ParsePairs(view, sp + 8 * i, top)
  }

  /** A string as a NUL-terminated reader sees it. */
  function UpToNul(s: seq<byte>): seq<byte> {
    if s == [] || s[0] == 0 then [] else [s[0]] + UpToNul(s[1..])
  }

  function UpToNulAll(strs: seq<seq<byte>>): seq<seq<byte>> {
    if strs == [] then [] else [UpToNul(strs[0])] + UpToNulAll(strs[1..])
  }

  /** `words` lie from `a` on. */
  ghost predicate HoldsWords(view: WordView, a: nat, words: seq<u64>) {
    forall i :: 0 <= i < |words| ==> a + 8 * i in view && view[a + 8 * i] == words[i]
  }

  lemma WordsHeld(mem: map<nat, byte>, a: nat, words: seq<u64>)
    requires WordsAt(mem, a, words)
    ensures HoldsWords(WordsOf(mem), a, words)
  {
    forall i | 0 <= i < |words|
      ensures a + 8 * i in WordsOf(mem) && WordsOf(mem)[a + 8 * i] == words[i]
    {
      WordHeld(mem, a + 8 * i, words[i]);
    }
  }

  lemma {:induction false} WordsParse(view: WordView, a: nat, top: nat, words: seq<u64>)
    requires a + 8 * (|words| + 1) <= top
    requires HoldsWords(view, a, words) && a + 8 * |words| in view && view[a + 8 * |words|] == 0
    requires forall i :: 0 <= i < |words| ==> words[i] != 0
    ensures ParseWords(view, a, top) == words
    decreases |words|
  {
    if words != [] {
      assert view[a + 8 * 0] == words[0];
      assert words == words[..1] + words[1..];
      HoldsWordsParts(view, a, words[..1], words[1..]);
      WordsParse(view, a + 8, top, words[1..]);
    }
  }

  lemma HoldsWordsParts(view: WordView, a: nat, left: seq<u64>, right: seq<u64>)
    requires HoldsWords(view, a, left + right)
    ensures HoldsWords(view, a, left) && HoldsWords(view, a + 8 * |left|, right)
  {
    forall i | 0 <= i < |left| ensures a + 8 * i in view && view[a + 8 * i] == left[i] {
      assert (left + right)[i] == left[i];
    }
    forall i | 0 <= i < |right|
      ensures a + 8 * |left| + 8 * i in view && view[a + 8 * |left| + 8 * i] == right[i]
    {
      assert (left + right)[|left| + i] == right[i] && a + 8 * |left| + 8 * i == a + 8 * (|left| + i);
    }
  }

  /** A stretch of words lies where its first index says. */
  lemma HoldsSlice(view: WordView, a: nat, words: seq<u64>, i: nat, slice: seq<u64>)
    requires HoldsWords(view, a, words) && i + |slice| <= |words| && words[i..i + |slice|] == slice
    ensures HoldsWords(view, a + 8 * i, slice)
  {
    forall k | 0 <= k < |slice|
      ensures a + 8 * i + 8 * k in view && view[a + 8 * i + 8 * k] == slice[k]
    {
      assert words[i + k] == words[i..i + |slice|][k] && a + 8 * i + 8 * k == a + 8 * (i + k);
    }
  }

  lemma {:induction false} PairsParse(view: WordView, a: nat, top: nat, t: AuxTable)
    requires a + 8 * (2 * |t| + 1) <= top
    requires HoldsWords(view, a, PairWords(t)) && a + 16 * |t| in view && view[a + 16 * |t|] == 0
    requires forall i :: 0 <= i < |t| ==> t[i].0 != 0
    ensures ParsePairs(view, a, top) == Reverse(t)
    decreases |t|
  {
    if t != [] {
      var last := t[|t| - 1];
      assert view[a + 8 * 0] == PairWords(t)[0] && view[a + 8 * 1] == PairWords(t)[1];
      HoldsWordsParts(view, a, [last.0, last.1], PairWords(t[..|t| - 1]));
      PairsParse(view, a + 16, top, t[..|t| - 1]);
    }
  }

  /** `words` are argc, the two vectors with their NULLs, and the table with its
      terminator. */
  ghost predicate ImageWords(words: seq<u64>, argc: u64, av: seq<u64>, ev: seq<u64>, t: AuxTable) {
    var envAt := |av| + 2;
    var auxAt := envAt + |ev| + 1;
    && |words| == auxAt + 2 * |t| + 1
    && words[0] == argc
    && words[1..1 + |av|] == av && words[1 + |av|] == 0
    && words[envAt..envAt + |ev|] == ev && words[envAt + |ev|] == 0
    && words[auxAt..auxAt + 2 * |t|] == PairWords(t) && words[auxAt + 2 * |t|] == 0
  }

  /** The words of an image, from low to high addresses. */
  ghost function Layout(argc: u64, av: seq<u64>, ev: seq<u64>, t: AuxTable): seq<u64> {
    [argc] + (av + ([0] + (ev + ([0] + (PairWords(t) + [0])))))
  }

  lemma ImageWordsJoined(argc: u64, av: seq<u64>, ev: seq<u64>, t: AuxTable)
    ensures ImageWords(Layout(argc, av, ev, t), argc, av, ev, t)
  {
    var pairs := [0] + (PairWords(t) + [0]);
    var envs := [0] + (ev + pairs);
    var words := [argc] + (av + envs);
    var envAt := |av| + 2;
    assert words == Layout(argc, av, ev, t);
    assert words[1..1 + |av|] == av && words[1 + |av|..] == envs;
    NextVector(words, 1 + |av|, ev, pairs);
    NextVector(words, envAt + |ev|, PairWords(t), [0]);
  }

  /** Behind a NULL comes the next vector, and then the rest. */
  lemma NextVector(words: seq<u64>, at: nat, v: seq<u64>, rest: seq<u64>)
    requires at <= |words| && words[at..] == [0] + (v + rest)
    ensures at + 1 + |v| + |rest| == |words| && words[at] == 0
    ensures words[at + 1..at + 1 + |v|] == v && words[at + 1 + |v|..] == rest
  {
    assert words[at..][0] == 0;
    assert words[at + 1..] == words[at..][1..] == v + rest;
    assert words[at + 1..at + 1 + |v|] == words[at + 1..][..|v|];
    assert words[at + 1 + |v|..] == words[at + 1..][|v|..];
  }

  /** The words of an image parse as argc, the two vectors and the table. */
  lemma {:induction false} WordsImage(view: WordView, sp: nat, top: nat, words: seq<u64>, argc: u64,
                                      av: seq<u64>, ev: seq<u64>, t: AuxTable)
    requires HoldsWords(view, sp, words) && ImageWords(words, argc, av, ev, t) && sp + 8 * |words| <= top
    requires (forall i :: 0 <= i < |av| ==> av[i] != 0) && (forall i :: 0 <= i < |ev| ==> ev[i] != 0)
    requires forall i :: 0 <= i < |t| ==> t[i].0 != 0
    ensures sp in view && view[sp] == argc
    ensures Vector(view, sp, 1, top) == av
    ensures Vector(view, sp, |av| + 2, top) == ev
    ensures Pairs(view, sp, |av| + |ev| + 3, top) == Reverse(t)
  {
    var envAt := |av| + 2;
    var auxAt := envAt + |ev| + 1;
    assert view[sp + 8 * 0] == words[0];
    VectorParses(view, sp, top, words, 1, av);
    VectorParses(view, sp, top, words, envAt, ev);
    assert view[sp + 8 * (auxAt + 2 * |t|)] == words[auxAt + 2 * |t|];
    HoldsSlice(view, sp, words, auxAt, PairWords(t));
    PairsParse(view, sp + 8 * auxAt, top, t);
  }

  /** A stretch of words with a zero behind it parses as a vector. */
  lemma VectorParses(view: WordView, a: nat, top: nat, words: seq<u64>, i: nat, vec: seq<u64>)
    requires HoldsWords(view, a, words) && a + 8 * |words| <= top
    requires i + |vec| < |words| && words[i..i + |vec|] == vec && words[i + |vec|] == 0
    requires forall k :: 0 <= k < |vec| ==> vec[k] != 0
    ensures Vector(view, a, i, top) == vec
  {
    assert view[a + 8 * (i + |vec|)] == words[i + |vec|];
    HoldsSlice(view, a, words, i, vec);
    WordsParse(view, a + 8 * i, top, vec);
  }

  lemma {:induction false} NoNullKeys(t: AuxTable)
    requires AT_NULL !in AsMap(t) && Ordered(t)
    ensures forall i :: 0 <= i < |t| ==> t[i].0 != 0
  {
    AsMapKeys(t);
  }

  lemma {:induction false} StringParses(mem: map<nat, byte>, a: nat, top: nat, s: seq<byte>)
    requires Holds(mem, a, CString(s)) && a + |s| + 1 <= top
    ensures ParseString(mem, a, top) == UpToNul(s)
    decreases |s|
  {
    assert mem[a] == CString(s)[0];
    if s != [] && s[0] != 0 {
      assert CString(s)[1..] == CString(s[1..]);
      StringParses(mem, a + 1, top, s[1..]);
    }
  }

  function Reverse<T>(s: seq<T>): (r: seq<T>)
    ensures |r| == |s|
    ensures forall i :: 0 <= i < |s| ==> r[i] == s[|s| - 1 - i]
    decreases |s|
  {
    if s == [] then [] else [s[|s| - 1]] + Reverse(s[..|s| - 1])
  }

  lemma ReverseNext<T>(s: seq<T>, i: nat, rest: seq<T>)
    requires i < |s|
    ensures [s[i]] + (Reverse(s[..i]) + rest) == Reverse(s[..i + 1]) + rest
  {
    assert s[..i + 1][..i] == s[..i];
  }

  lemma PairWordsNext(t: AuxTable, i: nat, rest: seq<u64>)
    requires i < |t|
    ensures [t[i].0] + ([t[i].1] + (PairWords(t[..i]) + rest)) == PairWords(t[..i + 1]) + rest
  {
    assert t[..i + 1][..i] == t[..i];
  }

  /** The table as words, from low to high addresses: the last key comes first. */
  function PairWords(t: AuxTable): (r: seq<u64>)
    ensures |r| == 2 * |t|
    decreases |t|
  {
    if t == [] then [] else [t[|t| - 1].0, t[|t| - 1].1] + PairWords(t[..|t| - 1])
  }
}
