/** The table of mmap regions of a process (common/task/task, resource.rs and
    syscall/mmap.rs): bump allocation, splitting for MAP_FIXED, and removal. */
module MMap {
  import opened Bytes
  import opened AddressSpace

  datatype Prot = PROT_READ | PROT_WRITE | PROT_EXEC

  datatype Flag = MAP_SHARED | MAP_PRIVATE | MAP_FIXED | MAP_ANONYMOUS

  type FileId = nat

  /** What one mapped address stands for. */
  datatype Mapping = Mapping(prot: set<Prot>, flags: set<Flag>, fd: Option<FileId>, fileOffset: u64)

  /** The place in a file that lies `d` bytes behind `offset`, as a machine word. */
  function Place(offset: u64, d: int): u64 {
    (offset + d) % USIZE_RANGE
  }

  /** Going on by `d`, as a machine word, and then by the rest leads to the same place. */
  lemma PlaceShift(offset: u64, d: int, x: int)
    ensures Place(Place(offset, d % USIZE_RANGE), x - d) == Place(offset, x)
  {
    var k := d / USIZE_RANGE;
    assert d % USIZE_RANGE == d - k * USIZE_RANGE;
    var y := offset + d - k * USIZE_RANGE;
    SameResidue(y % USIZE_RANGE + x - d, offset + x, y / USIZE_RANGE + k);
  }

  lemma SameResidue(x: int, y: int, k: int)
    requires y == x + k * USIZE_RANGE
    ensures x % USIZE_RANGE == y % USIZE_RANGE
  {
  }

  /** The length of a range, as a machine word. */
  function Span(start: nat, end: nat): (r: u64)
    ensures start <= end < start + USIZE_RANGE ==> r == end - start
    ensures end < start <= end + USIZE_RANGE ==> r == end + USIZE_RANGE - start
  {
    (end - start) % USIZE_RANGE
  }

  /** Sums and differences are those of machine words, which wrap. */
  datatype MMapRegion = MMapRegion(start: u64, len: u64, mapLen: u64, prot: set<Prot>, flags: set<Flag>,
                                   fd: Option<FileId>, offset: u64)
  {
    /** Where the region ends, as a number. */
    function End(): nat {
      start + len
    }

    /** Where it ends as a word. A region that reaches the top of the address space ends
        below its start, and so contains nothing. */
    function Stop(): (r: u64)
      ensures End() < USIZE_RANGE ==> r == End()
      ensures End() >= USIZE_RANGE ==> r < start
    {
      End() % USIZE_RANGE
    }

    predicate Empty() {
      Stop() <= start
    }

    predicate Contains(a: nat) {
      start <= a < Stop()
    }

    predicate WholePages() {
      start % FRAME_SIZE == 0 && len % FRAME_SIZE == 0
    }

    /** What address `a` stands for. */
    function At(a: nat): Mapping {
      Mapping(prot, flags, fd, Place(offset, a - start))
    }

    /** Cuts the region in two at `addr`. Inside the region the parts share out its
        addresses; what a cut outside it does is no different in the code. */
    function Split(addr: u64): (r: (MMapRegion, MMapRegion))
      ensures r.0.start == start && r.1.start == addr
      ensures start <= addr <= End() < USIZE_RANGE ==>
        && r.0.End() == addr && r.1.End() == End()
        && forall a: nat :: Contains(a) <==> r.0.Contains(a) || r.1.Contains(a)
    {
      var len1 := Span(start, addr);
      var len2 := Span(addr, start + len);
      (this.(len := len1, mapLen := AlignUp4K(len1)),
       this.(start := addr, len := len2, mapLen := AlignUp4K(len2), offset := Place(offset, len1)))
    }

    /** The range that each part maps is its length, rounded up to pages. */
    lemma SplitMapLengths(addr: u64)
      ensures Split(addr).0.mapLen == AlignUp4K(Split(addr).0.len)
      ensures Split(addr).1.mapLen == AlignUp4K(Split(addr).1.len)
    {
    }

    /** Wherever the cut is, both parts keep the place in the file of every address. */
    lemma SplitKeepsPlaces(addr: u64, a: nat)
      ensures Split(addr).0.At(a) == Split(addr).1.At(a) == At(a)
    {
      PlaceShift(offset, addr - start, a - start);
    }
  }

  // ---------------------------------------------------------------- tables of regions

  ghost predicate Apart(r: MMapRegion, s: MMapRegion) {
    r.Empty() || s.Empty() || r.Stop() <= s.start || s.Stop() <= r.start
  }

  /** No two regions share an address. */
  ghost predicate Disjoint(regions: seq<MMapRegion>) {
    forall i, j :: 0 <= i < j < |regions| ==> Apart(regions[i], regions[j])
  }

  /** The index of the first region that contains `a`, or the length. */
  function Find(regions: seq<MMapRegion>, a: nat): (i: nat)
    ensures i <= |regions|
    ensures i < |regions| ==> regions[i].Contains(a)
    ensures forall k :: 0 <= k < i ==> !regions[k].Contains(a)
  {
    if regions == [] || regions[0].Contains(a) then 0 else 1 + Find(regions[1..], a)
  }

  /** The table as a partial function from addresses. */
  ghost function View(regions: seq<MMapRegion>, a: nat): Option<Mapping> {
    var i := Find(regions, a);
    if i < |regions| then Some(regions[i].At(a)) else None
  }

  ghost function Covered(regions: seq<MMapRegion>): nat {
    if regions == [] then 0 else regions[0].len + Covered(regions[1..])
  }

  function Without(regions: seq<MMapRegion>, i: nat): seq<MMapRegion>
    requires i < |regions|
  {
    regions[..i] + regions[i + 1..]
  }

  lemma {:induction false} CoveredConcat(a: seq<MMapRegion>, b: seq<MMapRegion>)
    ensures Covered(a + b) == Covered(a) + Covered(b)
    decreases |a|
  {
    if a == [] {
      assert a + b == b;
    } else {
      assert (a + b)[1..] == a[1..] + b;
      CoveredConcat(a[1..], b);
    }
  }

  lemma CoveredWithout(regions: seq<MMapRegion>, i: nat)
    requires i < |regions|
    ensures Covered(regions) == Covered(Without(regions, i)) + regions[i].len
  {
    assert regions == regions[..i] + (regions[i..i + 1] + regions[i + 1..]);
    CoveredConcat(regions[..i], regions[i..i + 1] + regions[i + 1..]);
    CoveredConcat(regions[i..i + 1], regions[i + 1..]);
    CoveredConcat(regions[..i], regions[i + 1..]);
    assert Covered(regions[i..i + 1]) == regions[i].len;
  }

  /** In a disjoint table any region that contains an address says what it stands for. */
  lemma ViewIs(regions: seq<MMapRegion>, i: nat, a: nat)
    requires Disjoint(regions) && i < |regions| && regions[i].Contains(a)
    ensures Find(regions, a) == i && View(regions, a) == Some(regions[i].At(a))
  {
    var k := Find(regions, a);
    assert k == i by {
      assert k <= i;
      if k < i {
        assert false;
      }
    }
  }

  /** Replacing one region by pieces of it keeps the table disjoint. */
  lemma {:induction false} ReplaceKeepsDisjoint(regions: seq<MMapRegion>, i: nat, pieces: seq<MMapRegion>)
    requires Disjoint(regions) && i < |regions| && Disjoint(pieces)
    requires forall k :: 0 <= k < |pieces| && !pieces[k].Empty() ==>
      regions[i].start <= pieces[k].start && pieces[k].Stop() <= regions[i].Stop()
    ensures Disjoint(Without(regions, i) + pieces)
  {
    var rest := Without(regions, i);
    var all := rest + pieces;
    forall x, y | 0 <= x < y < |all|
      ensures Apart(all[x], all[y])
    {
      var x' := if x < i then x else x + 1;
      var y' := if y < i then y else y + 1;
      if y < |rest| {
        assert all[x] == regions[x'] && all[y] == regions[y'];
      } else if x < |rest| {
        assert all[x] == regions[x'] && all[y] == pieces[y - |rest|];
        assert if x' < i then Apart(regions[x'], regions[i]) else Apart(regions[i], regions[x']);
      } else {
        assert all[x] == pieces[x - |rest|] && all[y] == pieces[y - |rest|];
      }
    }
  }

  /** What a MAP_FIXED request puts in place of the region it falls in. */
  function Pieces(region: MMapRegion, start: u64, len: u64, prot: set<Prot>, flags: set<Flag>,
                  fd: Option<FileId>, offset: u64): (r: seq<MMapRegion>)
  {
    var (left, right) := region.Split(start);
    var cut := (start + len) % USIZE_RANGE;
    if cut < (right.start + right.mapLen) % USIZE_RANGE then
      var (middle, rest) := right.Split(cut);
      [left, rest, middle.(prot := prot, flags := flags, offset := offset, fd := fd)]
    else
      [left, right.(prot := prot, flags := flags, offset := offset, fd := fd)]
  }

  /** A request of whole pages that falls in the region. */
  predicate FallsIn(region: MMapRegion, start: u64, len: u64) {
    region.WholePages() && region.Contains(start) && start % FRAME_SIZE == 0 && len % FRAME_SIZE == 0
  }

  /** The part of such a region from the request on, and the end of the range it maps. */
  lemma RightPart(region: MMapRegion, start: u64, len: u64)
    requires FallsIn(region, start, len)
    ensures var right := region.Split(start).1;
      && region.End() <= USIZE_RANGE - FRAME_SIZE
      && right.start == start && right.End() == region.End()
      && (right.start + right.mapLen) % USIZE_RANGE == region.End()
  {
    var right := region.Split(start).1;
    PageSums(region.start, region.len);
    PageDifference(region.End(), start);
    assert right.len == region.End() - start;
    PageAligned(right.len);
  }

  lemma PageSums(a: nat, b: nat)
    requires a % FRAME_SIZE == 0 && b % FRAME_SIZE == 0
    ensures (a + b) % FRAME_SIZE == 0
    ensures a + b < USIZE_RANGE ==> a + b <= USIZE_RANGE - FRAME_SIZE
  {
  }

  lemma PageDifference(a: nat, b: nat)
    requires a % FRAME_SIZE == 0 && b % FRAME_SIZE == 0 && b <= a
    ensures (a - b) % FRAME_SIZE == 0
  {
  }

  lemma PageAligned(a: u64)
    requires a % FRAME_SIZE == 0
    ensures a <= USIZE_RANGE - FRAME_SIZE && AlignUp4K(a) == a
  {
  }

  /** The second cut, at the end of the request, lies in the right part exactly if that end
      does not wrap; where it wraps the cut is always made, and below the region's right
      part, so that the subtraction in `Split` underflows. */
  lemma CutStaysInsideIff(region: MMapRegion, start: u64, len: u64)
    requires FallsIn(region, start, len)
    ensures var right := region.Split(start).1;
      var cut := (start + len) % USIZE_RANGE;
      && (cut < (right.start + right.mapLen) % USIZE_RANGE ==>
           (right.start <= cut <= right.End() <==> start + len < USIZE_RANGE))
      && (start + len >= USIZE_RANGE ==> cut < start && cut < (right.start + right.mapLen) % USIZE_RANGE)
  {
    SecondCut(region, start, len);
  }

  /** When the second cut is made, and where. */
  lemma SecondCut(region: MMapRegion, start: u64, len: u64)
    requires FallsIn(region, start, len)
    ensures var right := region.Split(start).1;
      var cut := (start + len) % USIZE_RANGE;
      && right.start == start < right.End() == region.End() <= USIZE_RANGE - FRAME_SIZE
      && cut == (if start + len < USIZE_RANGE then start + len else start + len - USIZE_RANGE)
      && (cut < (right.start + right.mapLen) % USIZE_RANGE <==> cut < region.End())
  {
    RightPart(region, start, len);
    WrapsOnce(start + len);
  }

  lemma WrapsOnce(x: nat)
    requires x < 2 * USIZE_RANGE
    ensures x % USIZE_RANGE == if x < USIZE_RANGE then x else x - USIZE_RANGE
  {
  }

  /** The piece from `lo` up to `hi` that the request relabels. */
  predicate IsLabelled(r: MMapRegion, lo: nat, hi: nat, prot: set<Prot>, flags: set<Flag>, fd: Option<FileId>,
                       offset: u64)
  {
    r.start == lo && r.End() == hi && r.prot == prot && r.flags == flags && r.fd == fd && r.offset == offset
  }

  /** A piece from `lo` up to `hi` that stays as it was. */
  ghost predicate IsPart(r: MMapRegion, lo: nat, hi: nat, region: MMapRegion) {
    r.start == lo && r.End() == hi && forall a: nat :: r.At(a) == region.At(a)
  }

  /** The pieces of a request that does not wrap: the left part, what lies beyond the request
      if it ends inside the region, and the request's own. */
  lemma InnerPieces(region: MMapRegion, start: u64, len: u64, prot: set<Prot>, flags: set<Flag>,
                    fd: Option<FileId>, offset: u64)
    requires FallsIn(region, start, len) && start + len < USIZE_RANGE
    ensures var pieces := Pieces(region, start, len, prot, flags, fd, offset);
      if start + len < region.End() then
        && |pieces| == 3 && IsPart(pieces[0], region.start, start, region)
        && IsPart(pieces[1], start + len, region.End(), region)
        && IsLabelled(pieces[2], start, start + len, prot, flags, fd, offset)
      else
        && |pieces| == 2 && IsPart(pieces[0], region.start, start, region)
        && IsLabelled(pieces[1], start, region.End(), prot, flags, fd, offset)
  {
    SecondCut(region, start, len);
    LeftIsPart(region, start);
    RightIsPart(region, start);
    if start + len < region.End() {
      RightIsPart(region.Split(start).1, start + len);
    }
  }

  lemma LeftIsPart(region: MMapRegion, addr: u64)
    requires region.start <= addr <= region.End() < USIZE_RANGE
    ensures IsPart(region.Split(addr).0, region.start, addr, region)
  {
    forall a: nat ensures region.Split(addr).0.At(a) == region.At(a) {
      region.SplitKeepsPlaces(addr, a);
    }
  }

  lemma RightIsPart(region: MMapRegion, addr: u64)
    requires addr <= region.End() < USIZE_RANGE
    ensures IsPart(region.Split(addr).1, addr, region.End(), region)
  {
    forall a: nat ensures region.Split(addr).1.At(a) == region.At(a) {
      region.SplitKeepsPlaces(addr, a);
    }
  }

  /** The pieces are disjoint, lie in the region, and agree with it except where the
      request asks for something else. */
  lemma PiecesPartition(region: MMapRegion, start: u64, len: u64, prot: set<Prot>, flags: set<Flag>,
                        fd: Option<FileId>, offset: u64)
    requires FallsIn(region, start, len) && start + len < USIZE_RANGE
    ensures var pieces := Pieces(region, start, len, prot, flags, fd, offset);
      && Disjoint(pieces)
      && (forall k :: 0 <= k < |pieces| ==> region.start <= pieces[k].start && pieces[k].End() <= region.End())
      && forall a: nat :: region.Contains(a) ==>
           View(pieces, a) == Some(if start <= a < Min(start + len, region.End())
                                   then Mapping(prot, flags, fd, Place(offset, a - start)) else region.At(a))
  {
    InnerPieces(region, start, len, prot, flags, fd, offset);
    forall a: nat | region.Contains(a)
      ensures View(Pieces(region, start, len, prot, flags, fd, offset), a) ==
              Some(if start <= a < Min(start + len, region.End())
                   then Mapping(prot, flags, fd, Place(offset, a - start)) else region.At(a))
    {
      PiecesAt(region, start, len, prot, flags, fd, offset, a);
    }
  }

  lemma PiecesAt(region: MMapRegion, start: u64, len: u64, prot: set<Prot>, flags: set<Flag>,
                 fd: Option<FileId>, offset: u64, a: nat)
    requires FallsIn(region, start, len) && start + len < USIZE_RANGE && region.Contains(a)
    ensures View(Pieces(region, start, len, prot, flags, fd, offset), a) ==
            Some(if start <= a < Min(start + len, region.End())
                 then Mapping(prot, flags, fd, Place(offset, a - start)) else region.At(a))
  {
    var pieces := Pieces(region, start, len, prot, flags, fd, offset);
    InnerPieces(region, start, len, prot, flags, fd, offset);
    if start + len < region.End() {
      FindOfThree(pieces, a);
    } else {
      FindOfTwo(pieces, a);
    }
  }

  lemma FindOfTwo(pieces: seq<MMapRegion>, a: nat)
    requires |pieces| == 2
    ensures Find(pieces, a) == if pieces[0].Contains(a) then 0 else if pieces[1].Contains(a) then 1 else 2
  {
    assert pieces[1..] == [pieces[1]] && pieces[1..][1..] == [];
  }

  lemma FindOfThree(pieces: seq<MMapRegion>, a: nat)
    requires |pieces| == 3
    ensures Find(pieces, a) ==
      if pieces[0].Contains(a) then 0 else if pieces[1].Contains(a) then 1 else if pieces[2].Contains(a) then 2 else 3
  {
    assert pieces[1..] == [pieces[1], pieces[2]] && pieces[1..][1..] == [pieces[2]] && pieces[1..][1..][1..] == [];
  }

  lemma PiecesCover(region: MMapRegion, start: u64, len: u64, prot: set<Prot>, flags: set<Flag>,
                    fd: Option<FileId>, offset: u64)
    requires FallsIn(region, start, len) && start + len < USIZE_RANGE
    ensures Covered(Pieces(region, start, len, prot, flags, fd, offset)) == region.len
  {
    InnerPieces(region, start, len, prot, flags, fd, offset);
    var pieces := Pieces(region, start, len, prot, flags, fd, offset);
    if |pieces| == 3 {
      assert pieces[1..] == [pieces[1], pieces[2]];
      assert Covered([pieces[2]]) == pieces[2].len;
      assert Covered(pieces[1..]) == pieces[1].len + pieces[2].len by { assert pieces[1..][1..] == [pieces[2]]; }
    } else {
      assert pieces[1..] == [pieces[1]];
      assert Covered([pieces[1]]) == pieces[1].len;
    }
  }

  /** The table after a MAP_FIXED request that falls in the region at `i`: the pieces take
      the place of the first region that contains that region's start. */
  function Overlaid(regions: seq<MMapRegion>, i: nat, start: u64, len: u64, prot: set<Prot>, flags: set<Flag>,
                    fd: Option<FileId>, offset: u64): (r: seq<MMapRegion>)
    requires i < |regions| && regions[i].Contains(start)
  {
    FoundIfContained(regions, i, regions[i].start);
    Without(regions, Find(regions, regions[i].start)) + Pieces(regions[i], start, len, prot, flags, fd, offset)
  }

  lemma FoundIfContained(regions: seq<MMapRegion>, i: nat, a: nat)
    requires i < |regions| && regions[i].Contains(a)
    ensures Find(regions, a) <= i
  {
  }

  /** `after` is `before` with the addresses from `lo` up to `hi` standing for
      consecutive places from `offset` on; no other address changes. */
  ghost predicate IsUpdate(before: seq<MMapRegion>, after: seq<MMapRegion>, lo: nat, hi: nat,
                           prot: set<Prot>, flags: set<Flag>, fd: Option<FileId>, offset: u64)
  {
    forall a: nat :: View(after, a) ==
      (if lo <= a < hi then Some(Mapping(prot, flags, fd, Place(offset, a - lo))) else View(before, a))
  }

  /** MAP_FIXED inside a region is an update of the address map, unless its end wraps. It
      stops at the end of the region, every other address keeps its place in its file
      through the splits, and the table covers as much as before. */
  lemma {:induction false} OverlayIsUpdate(regions: seq<MMapRegion>, i: nat, start: u64, len: u64, prot: set<Prot>,
                                           flags: set<Flag>, fd: Option<FileId>, offset: u64)
    requires Disjoint(regions) && i < |regions| && FallsIn(regions[i], start, len) && start + len < USIZE_RANGE
    ensures Disjoint(Overlaid(regions, i, start, len, prot, flags, fd, offset))
    ensures Covered(Overlaid(regions, i, start, len, prot, flags, fd, offset)) == Covered(regions)
    ensures IsUpdate(regions, Overlaid(regions, i, start, len, prot, flags, fd, offset),
                     start, Min(start + len, regions[i].End()), prot, flags, fd, offset)
  {
    var region := regions[i];
    var pieces := Pieces(region, start, len, prot, flags, fd, offset);
    var rest := Without(regions, i);
    var after := rest + pieces;
    ViewIs(regions, i, region.start);
    PiecesPartition(region, start, len, prot, flags, fd, offset);
    PiecesCover(region, start, len, prot, flags, fd, offset);
    ReplaceKeepsDisjoint(regions, i, pieces);
    CoveredWithout(regions, i);
    CoveredConcat(rest, pieces);
    forall a: nat
      ensures View(after, a) ==
        (if start <= a < Min(start + len, region.End()) then Some(Mapping(prot, flags, fd, Place(offset, a - start)))
         else View(regions, a))
    {
      if region.Contains(a) {
        ViewIs(regions, i, a);
        ViewOfLater(rest, pieces, a);
      } else {
        KeptOutside(regions, i, pieces, a);
      }
    }
  }

  /** In a disjoint table an address of the later regions is theirs. */
  lemma ViewOfLater(first: seq<MMapRegion>, later: seq<MMapRegion>, a: nat)
    requires Disjoint(first + later) && View(later, a).Some?
    ensures View(first + later, a) == View(later, a)
  {
    var k := Find(later, a);
    assert (first + later)[|first| + k] == later[k];
    ViewIs(first + later, |first| + k, a);
  }

  /** Replacing a region by pieces of it changes nothing outside it. */
  lemma {:induction false} KeptOutside(regions: seq<MMapRegion>, i: nat, pieces: seq<MMapRegion>, a: nat)
    requires Disjoint(regions) && i < |regions| && !regions[i].Contains(a)
    requires Disjoint(Without(regions, i) + pieces)
    requires forall k :: 0 <= k < |pieces| ==> !pieces[k].Contains(a)
    ensures View(Without(regions, i) + pieces, a) == View(regions, a)
  {
    var rest := Without(regions, i);
    var after := rest + pieces;
    var k := Find(regions, a);
    if k < |regions| {
      var k' := if k < i then k else k - 1;
      assert after[k'] == regions[k];
      ViewIs(after, k', a);
    } else {
      forall j | 0 <= j < |after|
        ensures !after[j].Contains(a)
      {
        assert after[j] == if j < i then regions[j] else if j < |rest| then regions[j + 1] else pieces[j - |rest|];
      }
      assert Find(after, a) == |after|;
    }
  }

  // ---------------------------------------------------------------- the table in the process

  class MMapInfo {
    const heapMax: nat
    var mapStart: u64
    var regions: seq<MMapRegion>

    constructor (heapMax: u64)
      ensures this.heapMax == heapMax == mapStart && regions == []
    {
      this.heapMax := heapMax;
      mapStart := heapMax;
      regions := [];
    }

    /** Takes the next `len` bytes, rounded up to pages. Both sums are on machine
        words. */
    method Alloc(len: u64) returns (start: u64, end: u64)
      modifies this`mapStart
      ensures start == old(mapStart) && end == mapStart == AlignUp4K((old(mapStart) + len) % USIZE_RANGE)
    {
      start := mapStart;
      mapStart := (mapStart + len) % USIZE_RANGE;
      mapStart := AlignUp4K(mapStart);
      end := mapStart;
    }

    method AddRegion(region: MMapRegion)
      modifies this`regions
      ensures regions == old(regions) + [region]
    {
      regions := regions + [region];
    }

    method GetRegion(addr: nat) returns (r: Option<MMapRegion>)
      ensures r == if Find(regions, addr) < |regions| then Some(regions[Find(regions, addr)]) else None
    {
      var i := Find(regions, addr);
      r := if i < |regions| then Some(regions[i]) else None;
    }

    /** Removes the first region that contains `addr`, the one `GetRegion` finds. */
    method RemoveRegion(addr: nat)
      requires Find(regions, addr) < |regions|
      modifies this`regions
      ensures regions == Without(old(regions), Find(old(regions), addr))
    {
      var index := 0;
      while index < |regions| && !regions[index].Contains(addr)
        invariant 0 <= index <= |regions| && regions == old(regions)
        invariant Find(regions[index..], addr) + index == Find(regions, addr)
      {
        assert regions[index..][1..] == regions[index + 1..];
        index := index + 1;
      }
      regions := regions[..index] + regions[index + 1..];
    }
  }

  /** The address space, as far as mapping and unmapping are concerned: the areas in it,
      each by where it starts and ends. */
  class PageTable {
    var areas: map<nat, nat>

    /** Maps an area, or refuses because it meets another. */
    method Map(start: nat, end: nat) returns (ok: bool)
      modifies this
      ensures ok == Free(old(areas), start, end)
      ensures areas == if ok then WithArea(old(areas), start, end) else old(areas)
    {
      ok := Free(areas, start, end);
      if ok {
        areas := WithArea(areas, start, end);
      }
    }

    /** Unmaps the area that starts at `start`, all of it; fails if none does. */
    method Unmap(start: nat) returns (ok: bool)
      modifies this
      ensures ok == (start in old(areas)) && areas == old(areas) - {start}
    {
      ok := start in areas;
      areas := areas - {start};
    }
  }

  /** No area meets the range. An empty range meets none. */
  predicate Free(areas: map<nat, nat>, start: nat, end: nat) {
    start < end ==> forall s :: s in areas ==> areas[s] <= start || end <= s
  }

  function WithArea(areas: map<nat, nat>, start: nat, end: nat): map<nat, nat> {
    if start < end then areas[start := end] else areas
  }

  ghost predicate AreasOk(areas: map<nat, nat>) {
    && (forall s :: s in areas ==> s < areas[s])
    && (forall s, e {:trigger areas[s], areas[e]} :: s in areas && e in areas && s < e ==> areas[s] <= e)
  }

  lemma AreaAdded(areas: map<nat, nat>, start: nat, end: nat)
    requires AreasOk(areas) && Free(areas, start, end)
    ensures AreasOk(WithArea(areas, start, end))
    ensures forall s :: s in areas ==> s in WithArea(areas, start, end) && WithArea(areas, start, end)[s] == areas[s]
  {
  }

  // ---------------------------------------------------------------- areas and pages

  ghost predicate InArea(areas: map<nat, nat>, p: nat) {
    exists s :: s in areas && s <= p < areas[s]
  }

  /** The areas are those of an address space that maps the pages `perms`: `PageTable` and
      `VmSpace` stand for the same one, by its areas and by its pages. */
  ghost predicate SameSpace(perms: map<nat, set<Perm>>, areas: map<nat, nat>) {
    && AreasOk(areas) && (forall s :: s in areas ==> s % FRAME_SIZE == 0 && areas[s] % FRAME_SIZE == 0)
    && forall p: nat {:trigger p in perms} {:trigger InArea(areas, p)} ::
         p in perms <==> p % FRAME_SIZE == 0 && InArea(areas, p)
  }

  /** Both refuse to map the same ranges. */
  lemma FreeIsUnmapped(perms: map<nat, set<Perm>>, areas: map<nat, nat>, start: nat, end: nat)
    requires SameSpace(perms, areas) && start % FRAME_SIZE == 0 && end % FRAME_SIZE == 0
    ensures Free(areas, start, end) <==> Unmapped(perms, start, end)
  {
    if !Free(areas, start, end) {
      var s :| s in areas && start < areas[s] && s < end;
      assert InArea(areas, Max(start, s));
      assert Max(start, s) in perms;
    }
  }

  /** After mapping a range in both they still agree. */
  lemma MappedAlike(perms: map<nat, set<Perm>>, areas: map<nat, nat>, start: nat, end: nat, perm: set<Perm>)
    requires SameSpace(perms, areas) && start % FRAME_SIZE == 0 && end % FRAME_SIZE == 0 && Free(areas, start, end)
    ensures SameSpace(perms + Area(start, end, perm), WithArea(areas, start, end))
  {
    var areas' := WithArea(areas, start, end);
    AreaAdded(areas, start, end);
    forall p: nat ensures InArea(areas', p) <==> InArea(areas, p) || start <= p < end {
      if InArea(areas, p) {
        var s :| s in areas && s <= p < areas[s];
        assert s in areas' && areas'[s] == areas[s];
      }
      if start <= p < end {
        assert start in areas' && areas'[start] == end;
      }
    }
  }

  /** So they do after unmapping the area that starts at an address, which takes the pages of
      that area. */
  lemma UnmappedAlike(perms: map<nat, set<Perm>>, areas: map<nat, nat>, start: nat)
    requires SameSpace(perms, areas) && start in areas
    ensures SameSpace(map p | p in perms && !(start <= p < areas[start]) :: perms[p], areas - {start})
  {
    forall p: nat ensures InArea(areas - {start}, p) <==> InArea(areas, p) && !(start <= p < areas[start]) {
      if InArea(areas, p) && !(start <= p < areas[start]) {
        var s :| s in areas && s <= p < areas[s];
        assert s in areas - {start};
      }
      if InArea(areas - {start}, p) {
        var s :| s in areas - {start} && s <= p < areas[s];
        assert if s < start then areas[s] <= start else areas[start] <= s;
      }
    }
  }

  /** Appending a region that meets no other is an update of the address map. */
  lemma {:induction false} AppendIsUpdate(regions: seq<MMapRegion>, r: MMapRegion)
    requires Disjoint(regions + [r])
    ensures IsUpdate(regions, regions + [r], r.start, r.Stop(), r.prot, r.flags, r.fd, r.offset)
  {
    var after := regions + [r];
    forall a: nat
      ensures View(after, a) == if r.Contains(a) then Some(r.At(a)) else View(regions, a)
    {
      if r.Contains(a) {
        ViewIs(after, |regions|, a);
      } else {
        var k := Find(regions, a);
        if k < |regions| {
          assert after[k] == regions[k];
          ViewIs(after, k, a);
        } else {
          assert forall j :: 0 <= j < |after| ==> !after[j].Contains(a);
          assert Find(after, a) == |after|;
        }
      }
    }
  }

  // ---------------------------------------------------------------- the system calls

  datatype Error = EINVAL | EBADF

  datatype CallResult = Addr(addr: nat) | Err(error: Error) | Panic

  /** Splits the region that a MAP_FIXED request falls in. */
  method Overlay(mmap: MMapInfo, region: MMapRegion, start: u64, len: u64, prot: set<Prot>, flags: set<Flag>,
                 fd: Option<FileId>, offset: u64)
    requires Find(mmap.regions, start) < |mmap.regions| && region == mmap.regions[Find(mmap.regions, start)]
    modifies mmap`regions
    ensures mmap.regions ==
      Overlaid(old(mmap.regions), Find(old(mmap.regions), start), start, len, prot, flags, fd, offset)
  {
    FoundIfContained(mmap.regions, Find(mmap.regions, start), region.start);
    ghost var rest := Without(mmap.regions, Find(mmap.regions, region.start));
    var (left, right) := region.Split(start);
    mmap.RemoveRegion(region.start);
    mmap.AddRegion(left);
    var cut := (start + len) % USIZE_RANGE;
    if cut < (right.start + right.mapLen) % USIZE_RANGE {
      var (middle, beyond) := right.Split(cut);
      mmap.AddRegion(beyond);
      mmap.AddRegion(middle.(prot := prot, flags := flags, offset := offset, fd := fd));
      assert mmap.regions == rest + [left, beyond, middle.(prot := prot, flags := flags, offset := offset, fd := fd)];
    } else {
      mmap.AddRegion(right.(prot := prot, flags := flags, offset := offset, fd := fd));
      assert mmap.regions == rest + [left, right.(prot := prot, flags := flags, offset := offset, fd := fd)];
    }
  }

  /** The state the calls work on. */
  datatype Table = Table(mapStart: u64, heap: HeapRange, regions: seq<MMapRegion>, areas: map<nat, nat>)

  datatype HeapRange = HeapRange(start: u64, end: u64) {
    predicate Contains(addr: u64) {
      start <= addr < end
    }

    /** Both ends of the request lie in the heap. */
    predicate Holds(addr: u64, len: u64) {
      Contains(addr) && Contains((addr + len) % USIZE_RANGE)
    }

    /** The heap starts below the bump area, and so does the lowest address handed out. */
    predicate StartsBelow(heapMax: u64) {
      heapMax % FRAME_SIZE == 0 && start < heapMax && 0x1000 < heapMax
    }
  }

  /** The arguments of one mmap call; `file` is what its descriptor names. */
  datatype MmapArgs = MmapArgs(start: u64, len: u64, prot: set<Prot>, flags: set<Flag>, typeOk: bool,
                               file: Option<FileId>, offset: u64)
  {
    predicate Low() {
      PROT_EXEC in prot || MAP_FIXED in flags
    }

    function Fd(): Option<FileId> {
      if MAP_ANONYMOUS in flags then None else file
    }

    function Pages(): u64 {
      AlignUp4K(len)
    }

    /** The first address of the mapping, if the call is granted. */
    function Target(mapStart: u64): u64 {
      if PROT_EXEC in prot then (if PageOf(start) == 0 then 0x1000 else PageOf(start))
      else if MAP_FIXED in flags then PageOf(start)
      else mapStart
    }

    /** The range asked for, rounded to pages, reaches the top of the address space. */
    predicate Wraps() {
      PageOf(start) + Pages() >= USIZE_RANGE
    }
  }

  /** The error a request outside the heap is refused with, if it is. */
  function Refusal(regions: seq<MMapRegion>, heapStart: nat, q: MmapArgs): Option<Error> {
    if MAP_ANONYMOUS !in q.flags && q.file == None then Some(EBADF)
    else if q.Low() && PageOf(q.start) > heapStart then Some(EINVAL)
    else if PROT_EXEC in q.prot && Find(regions, PageOf(q.start)) < |regions| then Some(EINVAL)
    else None
  }

  /** The request falls in an existing region and only relabels part of it. */
  predicate Relabels(regions: seq<MMapRegion>, q: MmapArgs) {
    PROT_EXEC !in q.prot && MAP_FIXED in q.flags && Find(regions, PageOf(q.start)) < |regions|
  }

  /** Where the range of a granted request ends. */
  function RangeEnd(mapStart: u64, q: MmapArgs): u64 {
    if q.Low() then (q.Target(mapStart) + q.Pages()) % USIZE_RANGE
    else AlignUp4K((mapStart + q.Pages()) % USIZE_RANGE)
  }

  /** The region a granted request adds. */
  function NewRegion(mapStart: u64, q: MmapArgs): MMapRegion {
    var start := q.Target(mapStart);
    MMapRegion(start, q.Pages(), Span(start, RangeEnd(mapStart, q)), q.prot, q.flags, q.Fd(), q.offset)
  }

  /** The table with part of the region that the request falls in relabelled. */
  function Relabelled(t: Table, q: MmapArgs): Table
    requires Relabels(t.regions, q)
  {
    var start := PageOf(q.start);
    var i := Find(t.regions, start);
    t.(regions := Overlaid(t.regions, i, start, q.Pages(), q.prot, q.flags, q.Fd(), q.offset))
  }

  /** mmap, as a function on the table. A range that wraps is longer than any memory: the
      call panics, after its region was entered. */
  function Mmap(t: Table, q: MmapArgs): (r: (Table, CallResult)) {
    if !q.typeOk || (q.start == 0 && MAP_FIXED in q.flags) then (t, Err(EINVAL))
    else if t.heap.Holds(q.start, q.len) then (t, Addr(q.start))
    else if Refusal(t.regions, t.heap.start, q).Some? then (t, Err(Refusal(t.regions, t.heap.start, q).value))
    else if Relabels(t.regions, q) then (Relabelled(t, q), Addr(PageOf(q.start)))
    else
      var region := NewRegion(t.mapStart, q);
      var end := RangeEnd(t.mapStart, q);
      var t' := t.(regions := t.regions + [region], mapStart := if q.Low() then t.mapStart else end);
      if region.start <= end && Free(t.areas, region.start, end) then
        (t'.(areas := WithArea(t.areas, region.start, end)), Addr(region.start))
      else (t', Panic)
  }

  /** The table that the heap and the two objects hold. */
  ghost function Abstract(mmap: MMapInfo, space: PageTable, heap: HeapRange): Table
    reads mmap, space
  {
    Table(mmap.mapStart, heap, mmap.regions, space.areas)
  }

  method DoMmap(mmap: MMapInfo, space: PageTable, heap: HeapRange, q: MmapArgs) returns (r: CallResult)
    modifies mmap, space
    ensures Mmap(old(Abstract(mmap, space, heap)), q) == (Abstract(mmap, space, heap), r)
  {
    var fixed := MAP_FIXED in q.flags;
    if !q.typeOk || (q.start == 0 && fixed) {
      return Err(EINVAL);
    }
    if heap.Holds(q.start, q.len) {
      return Addr(q.start);
    }
    if MAP_ANONYMOUS !in q.flags && q.file == None {
      return Err(EBADF);
    }
    var fd := if MAP_ANONYMOUS in q.flags then None else q.file;
    var start := PageOf(q.start);
    var len := AlignUp4K(q.len);
    var vstart, vend: u64;
    if PROT_EXEC in q.prot {
      if start > heap.start {
        return Err(EINVAL);
      }
      var region := mmap.GetRegion(start);
      if region.Some? {
        return Err(EINVAL);
      }
      if start == 0 {
        start := 0x1000;
      }
      vstart, vend := start, (start + len) % USIZE_RANGE;
    } else if fixed {
      if start > heap.start {
        return Err(EINVAL);
      }
      var region := mmap.GetRegion(start);
      if region.Some? {
        Overlay(mmap, region.value, start, len, q.prot, q.flags, fd, q.offset);
        return Addr(start);
      }
      vstart, vend := start, (start + len) % USIZE_RANGE;
    } else {
      vstart, vend := mmap.Alloc(len);
    }
    assert vstart == q.Target(old(mmap.mapStart)) && vend == RangeEnd(old(mmap.mapStart), q);
    r := Enter(mmap, space, vend, MMapRegion(vstart, len, Span(vstart, vend), q.prot, q.flags, fd, q.offset));
  }

  /** Adds a region and maps its range. */
  method Enter(mmap: MMapInfo, space: PageTable, end: u64, region: MMapRegion) returns (r: CallResult)
    modifies mmap`regions, space
    ensures mmap.regions == old(mmap.regions) + [region]
    ensures r == if region.start <= end && Free(old(space.areas), region.start, end) then Addr(region.start) else Panic
    ensures space.areas ==
      if r == Panic then old(space.areas) else WithArea(old(space.areas), region.start, end)
  {
    mmap.AddRegion(region);
    if end < region.start {
      return Panic;
    }
    var ok := space.Map(region.start, end);
    r := if ok then Addr(region.start) else Panic;
  }

  /** munmap, as a function on the table. */
  function Munmap(t: Table, start: nat, len: nat): (Table, CallResult) {
    var i := Find(t.regions, start);
    if i == |t.regions| || t.regions[i].start != start || len != t.regions[i].len then (t, Err(EINVAL))
    else if start !in t.areas then (t, Panic)
    else (t.(regions := Without(t.regions, i), areas := t.areas - {start}), Addr(0))
  }

  method DoMunmap(mmap: MMapInfo, space: PageTable, start: nat, len: nat, ghost heap: HeapRange) returns (r: CallResult)
    modifies mmap, space
    ensures Munmap(old(Abstract(mmap, space, heap)), start, len) == (Abstract(mmap, space, heap), r)
  {
    var x := mmap.GetRegion(start);
    if x.None? {
      return Err(EINVAL);
    }
    var region := x.value;
    if region.start != start || len != region.len {
      return Err(EINVAL);
    }
    var ok := space.Unmap(start);
    if !ok {
      assert space.areas == old(space.areas);
      return Panic;
    }
    mmap.RemoveRegion(start);
    r := Addr(0);
  }

  /** Reserving a range for the vDSO: a bump allocation that maps nothing. */
  function Reserve(t: Table, len0: u64, prot: set<Prot>, flags: set<Flag>): (Table, CallResult) {
    var len := AlignUp4K(len0);
    if len == 0 then (t, Err(EINVAL))
    else
      (t.(mapStart := AlignUp4K((t.mapStart + len) % USIZE_RANGE),
          regions := t.regions + [MMapRegion(t.mapStart, len, len, prot, flags, None, 0)]),
       Addr(t.mapStart))
  }

  method VdsoReserve(mmap: MMapInfo, len0: u64, prot: set<Prot>, flags: set<Flag>,
                     ghost space: PageTable, ghost heap: HeapRange) returns (r: CallResult)
    modifies mmap
    ensures Reserve(old(Abstract(mmap, space, heap)), len0, prot, flags) == (Abstract(mmap, space, heap), r)
  {
    var len := AlignUp4K(len0);
    if len == 0 {
      return Err(EINVAL);
    }
    var start, end := mmap.Alloc(len);
    mmap.AddRegion(MMapRegion(start, len, len, prot, flags, None, 0));
    r := Addr(start);
  }

  // ---------------------------------------------------------------- what the calls do, by their arguments

  /** Both ends of the request, as words, lie in the heap. */
  predicate LiesInHeap(heap: HeapRange, q: MmapArgs) {
    heap.start <= q.start < heap.end && heap.start <= (q.start + q.len) % USIZE_RANGE < heap.end
  }

  /** Whether some region contains the address. */
  ghost predicate InRegion(regions: seq<MMapRegion>, a: nat) {
    exists i :: 0 <= i < |regions| && regions[i].start <= a < regions[i].Stop()
  }

  /** The request may not be made at all, whatever is mapped. */
  predicate IsMalformed(q: MmapArgs) {
    !q.typeOk || (q.start == 0 && MAP_FIXED in q.flags)
  }

  /** The request says itself where its mapping goes, and that is above the start of the heap
      or, for an executable one, in a region. */
  ghost predicate IsMisplaced(t: Table, q: MmapArgs) {
    && (PROT_EXEC in q.prot || MAP_FIXED in q.flags)
    && (PageOf(q.start) > t.heap.start || (PROT_EXEC in q.prot && InRegion(t.regions, PageOf(q.start))))
  }

  lemma FindsRegion(regions: seq<MMapRegion>, a: nat)
    ensures Find(regions, a) < |regions| <==> InRegion(regions, a)
  {
    if Find(regions, a) < |regions| {
      assert regions[Find(regions, a)].Contains(a);
    }
    if InRegion(regions, a) {
      var i :| 0 <= i < |regions| && regions[i].start <= a < regions[i].Stop();
      assert regions[i].Contains(a);
    }
  }

  /** Which requests are refused, and how: EBADF is for a descriptor that names no file, where
      one is needed; EINVAL for requests that are malformed or misplaced. A refused request
      changes nothing, nor does one in the heap, which is granted as it stands. */
  lemma MmapRefusedIff(t: Table, q: MmapArgs)
    ensures var (t', r) := Mmap(t, q);
      var noFile := MAP_ANONYMOUS !in q.flags && q.file == None;
      && (r == Err(EBADF) <==> !IsMalformed(q) && !LiesInHeap(t.heap, q) && noFile)
      && (r == Err(EINVAL) <==> IsMalformed(q) || (!LiesInHeap(t.heap, q) && !noFile && IsMisplaced(t, q)))
      && (r.Err? ==> t' == t)
      && (!IsMalformed(q) && LiesInHeap(t.heap, q) ==> r == Addr(q.start) && t' == t)
  {
    FindsRegion(t.regions, PageOf(q.start));
  }

  /** Where a request that is not refused puts its mapping: an executable one at the page asked
      for, but not on the first, a MAP_FIXED one there too, any other in the bump area. */
  function PlaceFor(t: Table, q: MmapArgs): u64 {
    if PROT_EXEC in q.prot && PageOf(q.start) == 0 then 0x1000
    else if PROT_EXEC in q.prot || MAP_FIXED in q.flags then PageOf(q.start)
    else t.mapStart
  }

  /** What a request outside the heap does that is not refused. One with MAP_FIXED that is not
      executable and falls in a region only relabels. Any other adds a region that says what
      the request says, moves the bump pointer if it took the bump area, and maps the range;
      it panics exactly if that wraps or meets an area. */
  lemma MmapOutcome(t: Table, q: MmapArgs)
    requires !Mmap(t, q).1.Err? && !LiesInHeap(t.heap, q)
    ensures var (t', r) := Mmap(t, q);
      var (at, len) := (PlaceFor(t, q), AlignUp4K(q.len));
      t'.heap == t.heap && (r.Addr? ==> r.addr == at) &&
      if PROT_EXEC !in q.prot && MAP_FIXED in q.flags && InRegion(t.regions, PageOf(q.start)) then
        r.Addr? && t' == t.(regions := t'.regions)
      else
        var end := if PROT_EXEC in q.prot || MAP_FIXED in q.flags then (at + len) % USIZE_RANGE
                   else AlignUp4K((at + len) % USIZE_RANGE);
        && |t'.regions| == |t.regions| + 1 && t'.regions[..|t.regions|] == t.regions
        && SaysAs(t'.regions[|t.regions|], at, len, end, q)
        && t'.mapStart == (if PROT_EXEC in q.prot || MAP_FIXED in q.flags then t.mapStart else end)
        && (r == Panic <==> end < at || exists s :: s in t.areas && at < t.areas[s] && s < end && at < end)
        && t'.areas == (if r.Addr? && at < end then t.areas[at := end] else t.areas)
  {
    FindsRegion(t.regions, PageOf(q.start));
  }

  /** The region lies where the mapping does and says what the request says. */
  predicate SaysAs(r: MMapRegion, at: nat, len: nat, end: nat, q: MmapArgs) {
    && r.start == at && r.len == len && r.mapLen == (end - at) % USIZE_RANGE
    && r.prot == q.prot && r.flags == q.flags && r.offset == q.offset
    && r.fd == if MAP_ANONYMOUS in q.flags then None else q.file
  }

  /** munmap is about the first region that contains its address. It is refused exactly if that
      starts or ends elsewhere than the range given, or there is none, and panics exactly if
      no area starts there; else region and area go, and nothing else does. */
  lemma MunmapOutcome(t: Table, start: nat, len: nat)
    ensures var (t', r) := Munmap(t, start, len);
      var i := Find(t.regions, start);
      var named := i < |t.regions| && t.regions[i].start == start && t.regions[i].len == len;
      && (r == Err(EINVAL) <==> !named) && (r == Panic <==> named && start !in t.areas)
      && (r == Err(EINVAL) || r == Panic || r == Addr(0))
      && if r == Addr(0) then
           t' == Table(t.mapStart, t.heap, t.regions[..i] + t.regions[i + 1..], t.areas - {start})
         else t' == t
  {
  }

  /** A reservation of nothing is refused; any other is granted at the bump pointer, which moves
      past it, and adds a region of its own and no area. */
  lemma ReserveOutcome(t: Table, len0: u64, prot: set<Prot>, flags: set<Flag>)
    ensures var (t', r) := Reserve(t, len0, prot, flags);
      var len := AlignUp4K(len0);
      && (r == Err(EINVAL) <==> len == 0) && (len == 0 ==> t' == t)
      && (len > 0 ==>
        && r == Addr(t.mapStart) && t'.mapStart == AlignUp4K((t.mapStart + len) % USIZE_RANGE)
        && t'.regions == t.regions + [MMapRegion(t.mapStart, len, len, prot, flags, None, 0)]
        && t'.heap == t.heap && t'.areas == t.areas)
  {
  }

  // ---------------------------------------------------------------- regions stay disjoint

  /** Regions are disjoint whole pages, and the bump allocator is past all of them. */
  ghost predicate Tidy(heapMax: u64, t: Table) {
    && t.heap.StartsBelow(heapMax) && heapMax <= t.mapStart && Paged(t)
    && Disjoint(t.regions)
    && AllBelow(t.regions, t.mapStart)
  }

  /** The bump pointer and all regions are whole pages. */
  predicate Paged(t: Table) {
    t.mapStart % FRAME_SIZE == 0 && forall i :: 0 <= i < |t.regions| ==> t.regions[i].WholePages()
  }

  ghost predicate AllBelow(regions: seq<MMapRegion>, end: nat) {
    forall i :: 0 <= i < |regions| && regions[i].len > 0 ==> regions[i].End() <= end
  }

  /** No region meets the range. */
  predicate Clear(regions: seq<MMapRegion>, start: nat, end: nat) {
    forall i :: 0 <= i < |regions| && !regions[i].Empty() ==> regions[i].Stop() <= start || end <= regions[i].start
  }

  /** The call adds a region: it is not refused, not ignored and not a relabelling. */
  predicate Adds(t: Table, q: MmapArgs) {
    Accepts(t, q) && !Relabels(t.regions, q)
  }

  /** The call is neither refused nor ignored. */
  predicate Accepts(t: Table, q: MmapArgs) {
    && q.typeOk && !(q.start == 0 && MAP_FIXED in q.flags) && !t.heap.Holds(q.start, q.len)
    && Refusal(t.regions, t.heap.start, q).None?
  }

  /** The range of the new region fits the table: it meets no region and ends before the
      bump area goes on, or the bump area does not wrap. */
  predicate Fits(t: Table, q: MmapArgs) {
    if q.Low() then
      var start := q.Target(t.mapStart);
      q.Pages() == 0 || (start + q.Pages() <= t.mapStart && Clear(t.regions, start, start + q.Pages()))
    else t.mapStart + q.Pages() <= USIZE_RANGE - FRAME_SIZE
  }

  lemma AppendDisjointIff(regions: seq<MMapRegion>, r: MMapRegion)
    requires Disjoint(regions)
    ensures Disjoint(regions + [r]) <==> r.Empty() || Clear(regions, r.start, r.Stop())
  {
    var after := regions + [r];
    if r.Empty() || Clear(regions, r.start, r.Stop()) {
      forall x, y | 0 <= x < y < |after| ensures Apart(after[x], after[y]) {
        assert after[x] == regions[x] && (y < |regions| ==> after[y] == regions[y]);
      }
    } else {
      var i :| 0 <= i < |regions| && !regions[i].Empty() &&
               !(regions[i].Stop() <= r.start || r.Stop() <= regions[i].start);
      assert after[i] == regions[i] && after[|regions|] == r;
    }
  }

  lemma AppendBelowIff(regions: seq<MMapRegion>, r: MMapRegion, end: nat)
    requires AllBelow(regions, end)
    ensures AllBelow(regions + [r], end) <==> r.len == 0 || r.End() <= end
  {
    var after := regions + [r];
    assert after[|regions|] == r && forall i :: 0 <= i < |regions| ==> after[i] == regions[i];
  }

  /** Sums of whole pages either stay below the last page or wrap. */
  lemma NoWrap(start: u64, len: u64)
    requires start % FRAME_SIZE == 0 && len % FRAME_SIZE == 0
    ensures start + len <= USIZE_RANGE - FRAME_SIZE ==> AlignUp4K((start + len) % USIZE_RANGE) == start + len
    ensures start + len > USIZE_RANGE - FRAME_SIZE ==> AlignUp4K((start + len) % USIZE_RANGE) < start + len && len > 0
  {
  }

  /** Moving the bump pointer over a new region keeps the table tidy unless it wraps. */
  lemma BumpTidyIff(heapMax: u64, t: Table, r: MMapRegion, t': Table)
    requires Tidy(heapMax, t) && r.start == t.mapStart && r.len < USIZE_RANGE && r.len % FRAME_SIZE == 0
    requires t'.regions == t.regions + [r] && t'.mapStart == AlignUp4K((t.mapStart + r.len) % USIZE_RANGE)
    requires t'.heap == t.heap
    ensures Disjoint(t'.regions)
    ensures Tidy(heapMax, t') <==> t.mapStart + r.len <= USIZE_RANGE - FRAME_SIZE
  {
    NoWrap(t.mapStart, r.len);
    AppendDisjointIff(t.regions, r);
    if t.mapStart + r.len <= USIZE_RANGE - FRAME_SIZE {
      assert AllBelow(t.regions, t'.mapStart);
      AppendBelowIff(t.regions, r, t'.mapStart);
    } else {
      assert t'.regions[|t.regions|] == r;
    }
  }

  /** A granted mapping keeps the table tidy exactly if its range fits. */
  lemma {:induction false} MmapTidyIff(heapMax: u64, t: Table, q: MmapArgs)
    requires Tidy(heapMax, t) && Adds(t, q)
    ensures Tidy(heapMax, Mmap(t, q).0) <==> Fits(t, q)
  {
    var region := NewRegion(t.mapStart, q);
    var t' := Mmap(t, q).0;
    assert t'.regions == t.regions + [region];
    if q.Low() {
      AppendDisjointIff(t.regions, region);
      AppendBelowIff(t.regions, region, t.mapStart);
    } else {
      BumpTidyIff(heapMax, t, region, t');
    }
  }

  /** A region after a relabelling is one from before, or a piece of the relabelled one. */
  lemma RelabelledRegions(t: Table, q: MmapArgs)
    requires Disjoint(t.regions) && Paged(t) && Relabels(t.regions, q) && !q.Wraps()
    ensures forall r :: r in Relabelled(t, q).regions ==>
      r in t.regions || IsPieceOf(r, t.regions[Find(t.regions, PageOf(q.start))])
  {
    var start := PageOf(q.start);
    var i := Find(t.regions, start);
    PiecesPaged(t.regions[i], start, q.Pages(), q.prot, q.flags, q.Fd(), q.offset);
    PiecesPartition(t.regions[i], start, q.Pages(), q.prot, q.flags, q.Fd(), q.offset);
    ViewIs(t.regions, i, t.regions[i].start);
    var rest := Without(t.regions, i);
    var pieces := Pieces(t.regions[i], start, q.Pages(), q.prot, q.flags, q.Fd(), q.offset);
    forall r | r in rest + pieces ensures r in t.regions || IsPieceOf(r, t.regions[i]) {
      assert r in rest || r in pieces;
    }
  }

  predicate IsPieceOf(r: MMapRegion, region: MMapRegion) {
    r.WholePages() && region.start <= r.start && r.End() <= region.End()
  }

  /** Relabelling part of a region keeps the table tidy exactly if its end does not wrap. */
  lemma {:induction false} RelabelTidyIff(heapMax: u64, t: Table, q: MmapArgs)
    requires Tidy(heapMax, t) && Relabels(t.regions, q)
    ensures Tidy(heapMax, Relabelled(t, q)) <==> !q.Wraps()
  {
    var start, i := PageOf(q.start), Find(t.regions, PageOf(q.start));
    var after := Relabelled(t, q).regions;
    if q.Wraps() {
      var left, beyond, middle := WrappedPieces(t.regions[i], start, q.Pages(), q.prot, q.flags, q.Fd(), q.offset);
      assert after[|after| - 1] == middle;
    } else {
      OverlayIsUpdate(t.regions, i, start, q.Pages(), q.prot, q.flags, q.Fd(), q.offset);
      RelabelledRegions(t, q);
      forall k | 0 <= k < |after|
        ensures after[k].WholePages() && (after[k].len > 0 ==> after[k].End() <= t.mapStart)
      {
        assert after[k] in after;
      }
    }
  }

  /** It then changes what addresses stand for, not which ones do. */
  lemma RelabelKeepsCover(t: Table, q: MmapArgs, a: nat)
    requires Disjoint(t.regions) && Paged(t) && Relabels(t.regions, q) && !q.Wraps()
    ensures View(Relabelled(t, q).regions, a).Some? <==> View(t.regions, a).Some?
  {
    var start, i := PageOf(q.start), Find(t.regions, PageOf(q.start));
    OverlayIsUpdate(t.regions, i, start, q.Pages(), q.prot, q.flags, q.Fd(), q.offset);
    if t.regions[i].Contains(a) {
      ViewIs(t.regions, i, a);
    }
  }

  /** The pieces of a request that wraps: the left part, the right part extended downwards
      to the wrapped end, and one that contains nothing. */
  lemma WrappedPieces(region: MMapRegion, start: u64, len: u64, prot: set<Prot>, flags: set<Flag>,
                      fd: Option<FileId>, offset: u64)
    returns (left: MMapRegion, beyond: MMapRegion, middle: MMapRegion)
    requires FallsIn(region, start, len) && start + len >= USIZE_RANGE
    ensures Pieces(region, start, len, prot, flags, fd, offset) == [left, beyond, middle]
    ensures IsPart(left, region.start, start, region)
    ensures IsPart(beyond, start + len - USIZE_RANGE, region.End(), region) && beyond.start < start
    ensures middle.start == start && middle.len == len > 0 && middle.Empty()
    ensures left.WholePages() && beyond.WholePages() && middle.WholePages()
  {
    SecondCut(region, start, len);
    PiecesPaged(region, start, len, prot, flags, fd, offset);
    LeftIsPart(region, start);
    RightIsPart(region, start);
    RightIsPart(region.Split(start).1, start + len - USIZE_RANGE);
    var pieces := Pieces(region, start, len, prot, flags, fd, offset);
    left, beyond, middle := pieces[0], pieces[1], pieces[2];
    assert middle.len == Span(start, start + len - USIZE_RANGE);
  }

  /** Pieces are whole pages, wherever the cuts are. */
  lemma PiecesPaged(region: MMapRegion, start: u64, len: u64, prot: set<Prot>, flags: set<Flag>,
                    fd: Option<FileId>, offset: u64)
    requires FallsIn(region, start, len)
    ensures forall r :: r in Pieces(region, start, len, prot, flags, fd, offset) ==> r.WholePages()
  {
    var (left, right) := region.Split(start);
    SplitPaged(region, start);
    PageSums(start, len);
    PageResidue(start + len);
    SplitPaged(right, (start + len) % USIZE_RANGE);
  }

  lemma PageResidue(x: int)
    requires x % FRAME_SIZE == 0
    ensures x % USIZE_RANGE % FRAME_SIZE == 0
  {
    var k := x / USIZE_RANGE;
    assert x % USIZE_RANGE == FRAME_SIZE * (x / FRAME_SIZE - k * (USIZE_RANGE / FRAME_SIZE));
  }

  lemma SpanPaged(a: nat, b: nat)
    requires a % FRAME_SIZE == 0 && b % FRAME_SIZE == 0
    ensures Span(a, b) % FRAME_SIZE == 0
  {
    assert b - a == FRAME_SIZE * (b / FRAME_SIZE - a / FRAME_SIZE);
    PageResidue(b - a);
  }

  lemma SplitPaged(r: MMapRegion, addr: u64)
    requires r.WholePages() && addr % FRAME_SIZE == 0
    ensures r.Split(addr).0.WholePages() && r.Split(addr).1.WholePages()
  {
    SpanPaged(r.start, addr);
    PageSums(r.start, r.len);
    SpanPaged(addr, r.start + r.len);
  }

  /** What a request that wraps does instead of relabelling: every address keeps what it
      stood for, and those from the wrapped end up to the request's start that stood for
      nothing now belong to the region, as if it went on below its start. */
  lemma {:induction false} WrappedRelabelView(t: Table, q: MmapArgs, a: nat)
    requires Disjoint(t.regions) && Paged(t) && Relabels(t.regions, q) && q.Wraps()
    ensures var start := PageOf(q.start);
      var region := t.regions[Find(t.regions, start)];
      View(Relabelled(t, q).regions, a) ==
        if View(t.regions, a).Some? then View(t.regions, a)
        else if start + q.Pages() - USIZE_RANGE <= a < start then Some(region.At(a))
        else None
  {
    var start, i := PageOf(q.start), Find(t.regions, PageOf(q.start));
    var region := t.regions[i];
    ViewIs(t.regions, i, region.start);
    var left, beyond, middle := WrappedPieces(region, start, q.Pages(), q.prot, q.flags, q.Fd(), q.offset);
    ViewOfExtended(region, start, left, beyond, middle, a);
    FindInRest(Without(t.regions, i), [left, beyond, middle], a);
    RestSays(t.regions, i, a);
    if region.Contains(a) {
      ViewIs(t.regions, i, a);
    }
  }

  lemma ViewOfExtended(region: MMapRegion, start: nat, left: MMapRegion, beyond: MMapRegion, middle: MMapRegion, a: nat)
    requires region.Contains(start) && middle.Empty()
    requires IsPart(left, region.start, start, region)
    requires beyond.start < start && IsPart(beyond, beyond.start, region.End(), region)
    ensures View([left, beyond, middle], a) ==
      if region.Contains(a) || beyond.start <= a < start then Some(region.At(a)) else None
  {
    FindOfThree([left, beyond, middle], a);
  }

  lemma FindInRest(first: seq<MMapRegion>, later: seq<MMapRegion>, a: nat)
    ensures View(first + later, a) == if View(first, a).Some? then View(first, a) else View(later, a)
  {
    var k := Find(first + later, a);
    if Find(first, a) < |first| {
      var j := Find(first, a);
      assert (first + later)[j] == first[j];
      assert k <= j && (first + later)[k] == first[k];
    } else {
      var j := Find(later, a);
      assert forall x :: 0 <= x < |first| ==> (first + later)[x] == first[x];
      if j < |later| {
        assert (first + later)[|first| + j] == later[j];
      }
      if k < |first + later| {
        assert (first + later)[k] == later[k - |first|];
      }
    }
  }

  /** Without one of its regions a disjoint table says the same about all other addresses. */
  lemma RestSays(regions: seq<MMapRegion>, i: nat, a: nat)
    requires Disjoint(regions) && i < |regions|
    ensures View(Without(regions, i), a) == if regions[i].Contains(a) then None else View(regions, a)
  {
    if regions[i].Contains(a) {
      ForgottenByWithout(regions, i, a);
    } else {
      assert Without(regions, i) + [] == Without(regions, i);
      ReplaceKeepsDisjoint(regions, i, []);
      KeptOutside(regions, i, [], a);
    }
  }

  /** Two regions behind a disjoint table: one of a region taken out of it, the other that one
      from its middle on, extended downwards. */
  lemma ExtendedDisjointIff(regions: seq<MMapRegion>, i: nat, left: MMapRegion, beyond: MMapRegion)
    requires Disjoint(regions) && i < |regions| && !regions[i].Empty()
    requires left.start == regions[i].start && left.Stop() == left.End() <= regions[i].Stop()
    requires beyond.start < left.End() && beyond.Stop() == regions[i].Stop()
    ensures Disjoint(Without(regions, i) + [left, beyond]) <==>
      left.Empty() && Clear(Without(regions, i), beyond.start, left.End())
  {
    var region, rest := regions[i], Without(regions, i);
    var after, n := rest + [left, beyond], |rest|;
    assert after[n] == left && after[n + 1] == beyond && forall k :: 0 <= k < n ==> after[k] == rest[k];
    forall k | 0 <= k < n ensures Apart(rest[k], region) {
      var k' := if k < i then k else k + 1;
      assert rest[k] == regions[k'];
      assert if k' < i then Apart(regions[k'], region) else Apart(region, regions[k']);
    }
    if left.Empty() && Clear(rest, beyond.start, left.End()) {
      forall x, y | 0 <= x < y < |after| ensures Apart(after[x], after[y]) {
        if y < n {
          assert Apart(regions[if x < i then x else x + 1], regions[if y < i then y else y + 1]);
        }
      }
    } else if left.Empty() {
      var k :| 0 <= k < n && !rest[k].Empty() && !(rest[k].Stop() <= beyond.start || left.End() <= rest[k].start);
      assert !Apart(after[k], after[n + 1]);
    } else {
      assert !Apart(after[n], after[n + 1]);
    }
  }

  /** So such a request leaves the regions disjoint exactly if it starts where its region
      does and no other region lies between its wrapped end and there. */
  lemma {:induction false} WrappedRelabelDisjointIff(t: Table, q: MmapArgs)
    requires Disjoint(t.regions) && Paged(t) && Relabels(t.regions, q) && q.Wraps()
    ensures var start := PageOf(q.start);
      var i := Find(t.regions, start);
      Disjoint(Relabelled(t, q).regions) <==>
        t.regions[i].start == start && Clear(Without(t.regions, i), start + q.Pages() - USIZE_RANGE, start)
  {
    var start, i := PageOf(q.start), Find(t.regions, PageOf(q.start));
    var rest := Without(t.regions, i);
    ViewIs(t.regions, i, t.regions[i].start);
    var left, beyond, middle := WrappedPieces(t.regions[i], start, q.Pages(), q.prot, q.flags, q.Fd(), q.offset);
    ExtendedDisjointIff(t.regions, i, left, beyond);
    EmptyLast(rest + [left, beyond], middle);
    assert Relabelled(t, q).regions == rest + [left, beyond] + [middle];
  }

  lemma EmptyLast(regions: seq<MMapRegion>, r: MMapRegion)
    requires r.Empty()
    ensures Disjoint(regions + [r]) <==> Disjoint(regions)
  {
    var after := regions + [r];
    assert after[|regions|] == r && forall k :: 0 <= k < |regions| ==> after[k] == regions[k];
  }

  /** A call that does not add keeps the table tidy, unless it relabels and wraps. */
  lemma OtherMmapTidyIff(heapMax: u64, t: Table, q: MmapArgs)
    requires Tidy(heapMax, t) && !Adds(t, q)
    ensures Tidy(heapMax, Mmap(t, q).0) <==> (Accepts(t, q) ==> !q.Wraps())
  {
    if Accepts(t, q) {
      RelabelTidyIff(heapMax, t, q);
    }
  }

  /** A granted call updates the address map where it says it did, and nowhere else:
      a relabelling that does not wrap stops at the end of the region it falls in, and a
      new region is new everywhere. */
  lemma {:induction false} MmapIsUpdate(heapMax: u64, t: Table, q: MmapArgs)
    requires Tidy(heapMax, t) && Accepts(t, q)
    requires if Relabels(t.regions, q) then !q.Wraps() else Fits(t, q) && IsFree(t, q)
    ensures var (t', r) := Mmap(t, q);
      var start := q.Target(t.mapStart);
      var end := UpdateEnd(t, q, start);
      && r == Addr(start)
      && IsUpdate(t.regions, t'.regions, start, end, q.prot, q.flags, q.Fd(), q.offset)
      && Covered(t'.regions) == Covered(t.regions) + (if Relabels(t.regions, q) then 0 else q.Pages())
  {
    if Relabels(t.regions, q) {
      assert q.Target(t.mapStart) == PageOf(q.start) && Mmap(t, q) == (Relabelled(t, q), Addr(PageOf(q.start)));
      RelabelIsUpdate(t, q);
    } else {
      AddIsUpdate(heapMax, t, q);
      RangeFits(t, q);
    }
  }

  /** A range that fits ends where its length says. */
  lemma RangeFits(t: Table, q: MmapArgs)
    requires t.mapStart % FRAME_SIZE == 0 && Fits(t, q)
    ensures RangeEnd(t.mapStart, q) == q.Target(t.mapStart) + q.Pages()
  {
    NoWrap(t.mapStart, q.Pages());
  }

  /** No area meets the range of the new region. */
  predicate IsFree(t: Table, q: MmapArgs) {
    Free(t.areas, q.Target(t.mapStart), q.Target(t.mapStart) + q.Pages())
  }

  /** Where the change that a request makes from `start` on ends. */
  function UpdateEnd(t: Table, q: MmapArgs, start: u64): nat {
    if Relabels(t.regions, q) then Min(start + q.Pages(), t.regions[Find(t.regions, PageOf(q.start))].End())
    else start + q.Pages()
  }

  lemma RelabelIsUpdate(t: Table, q: MmapArgs)
    requires Disjoint(t.regions) && Paged(t) && Relabels(t.regions, q) && !q.Wraps()
    ensures var start := PageOf(q.start);
      var end := Min(start + q.Pages(), t.regions[Find(t.regions, start)].End());
      && IsUpdate(t.regions, Relabelled(t, q).regions, start, end, q.prot, q.flags, q.Fd(), q.offset)
      && Covered(Relabelled(t, q).regions) == Covered(t.regions)
  {
    var start := PageOf(q.start);
    OverlayIsUpdate(t.regions, Find(t.regions, start), start, q.Pages(), q.prot, q.flags, q.Fd(), q.offset);
  }

  lemma AddIsUpdate(heapMax: u64, t: Table, q: MmapArgs)
    requires Tidy(heapMax, t) && Adds(t, q) && Fits(t, q)
    ensures var t', start := Mmap(t, q).0, q.Target(t.mapStart);
      && IsUpdate(t.regions, t'.regions, start, start + q.Pages(), q.prot, q.flags, q.Fd(), q.offset)
      && Covered(t'.regions) == Covered(t.regions) + q.Pages()
  {
    var region := NewRegion(t.mapStart, q);
    MmapTidyIff(heapMax, t, q);
    AppendIsUpdate(t.regions, region);
    CoveredConcat(t.regions, [region]);
    assert Covered([region]) == region.len;
  }

  /** A reservation keeps the table tidy exactly if the bump area does not wrap. */
  lemma ReserveTidyIff(heapMax: u64, t: Table, len: u64, prot: set<Prot>, flags: set<Flag>)
    requires Tidy(heapMax, t) && AlignUp4K(len) > 0
    ensures Tidy(heapMax, Reserve(t, len, prot, flags).0) <==> t.mapStart + AlignUp4K(len) <= USIZE_RANGE - FRAME_SIZE
  {
    var r := MMapRegion(t.mapStart, AlignUp4K(len), AlignUp4K(len), prot, flags, None, 0);
    BumpTidyIff(heapMax, t, r, Reserve(t, len, prot, flags).0);
  }

  /** No other region of a disjoint table contains an address of the one taken out. */
  lemma ForgottenByWithout(regions: seq<MMapRegion>, i: nat, a: nat)
    requires Disjoint(regions) && i < |regions| && regions[i].Contains(a)
    ensures View(Without(regions, i), a) == None
  {
    var after := Without(regions, i);
    forall k | 0 <= k < |after| ensures !after[k].Contains(a) {
      var k' := if k < i then k else k + 1;
      assert after[k] == regions[k'];
      assert if k' < i then Apart(regions[k'], regions[i]) else Apart(regions[i], regions[k']);
    }
    assert Find(after, a) == |after|;
  }

  /** Any munmap keeps the table tidy and forgets exactly the addresses of its region,
      whatever the area that goes with it held. */
  lemma {:induction false} MunmapKeepsTidy(heapMax: u64, t: Table, start: nat, len: nat)
    requires Tidy(heapMax, t)
    ensures Tidy(heapMax, Munmap(t, start, len).0)
    ensures Munmap(t, start, len).1 == Addr(0) ==>
      forall a: nat :: View(Munmap(t, start, len).0.regions, a) ==
        (if start <= a < start + len then None else View(t.regions, a))
  {
    var (t', r) := Munmap(t, start, len);
    if r == Addr(0) {
      var i := Find(t.regions, start);
      var after := t'.regions;
      assert after + [] == after;
      ReplaceKeepsDisjoint(t.regions, i, []);
      forall k | 0 <= k < |after| && after[k].len > 0 ensures after[k].End() <= t.mapStart {
        assert after[k] == t.regions[if k < i then k else k + 1];
      }
      forall a: nat ensures View(after, a) == if start <= a < start + len then None else View(t.regions, a) {
        if start <= a < start + len {
          ForgottenByWithout(t.regions, i, a);
        } else {
          KeptOutside(t.regions, i, [], a);
        }
      }
    }
  }

  // ---------------------------------------------------------------- what the areas say about the regions

  /** The region lies in an area, and every address of that area is in some region. */
  ghost predicate Owned(t: Table, r: MMapRegion) {
    exists s :: s in t.areas && Owns(t, s, r)
  }

  ghost predicate Owns(t: Table, s: nat, r: MMapRegion)
    requires s in t.areas
  {
    s <= r.start && r.End() <= t.areas[s] && InRegions(t.regions, s, t.areas[s])
  }

  ghost predicate InRegions(regions: seq<MMapRegion>, start: nat, end: nat) {
    forall a: nat {:trigger View(regions, a)} :: start <= a < end ==> View(regions, a).Some?
  }

  /** A tidy table whose regions below the bump area have all their areas. */
  ghost predicate Sound(heapMax: u64, t: Table) {
    && Tidy(heapMax, t) && AreasOk(t.areas)
    && forall i :: 0 <= i < |t.regions| && t.regions[i].len > 0 && t.regions[i].start < heapMax ==>
         Owned(t, t.regions[i])
  }

  /** Every region that starts in the bump area starts at or above `end`. */
  predicate ClearAbove(heapMax: u64, regions: seq<MMapRegion>, end: nat) {
    forall i :: 0 <= i < |regions| && regions[i].len > 0 && regions[i].start >= heapMax ==> end <= regions[i].start
  }

  /** The new range does not run into the bump area in use, or the bump area does not
      wrap. What lies below the bump area, the address space sees to. */
  predicate HasRoom(heapMax: u64, t: Table, q: MmapArgs) {
    if q.Low() then
      var end := q.Target(t.mapStart) + q.Pages();
      q.Pages() == 0 || (end <= t.mapStart && ClearAbove(heapMax, t.regions, end))
    else t.mapStart + q.Pages() <= USIZE_RANGE - FRAME_SIZE
  }

  lemma OwnedIsApart(t: Table, r: MMapRegion, start: nat, end: nat)
    requires Owned(t, r) && Free(t.areas, start, end) && start < end
    ensures r.End() <= start || end <= r.start
  {
  }

  /** The range of a granted request that adds a region. */
  lemma GrantedRange(t: Table, q: MmapArgs)
    requires t.mapStart % FRAME_SIZE == 0 && Adds(t, q) && Mmap(t, q).1 != Panic
    ensures var r := NewRegion(t.mapStart, q);
      && r.start == q.Target(t.mapStart) && r.len == q.Pages() && r.End() < USIZE_RANGE
      && r.End() == RangeEnd(t.mapStart, q) && Free(t.areas, r.start, r.End())
      && Mmap(t, q).0.regions == t.regions + [r]
      && Mmap(t, q).0.mapStart == (if q.Low() then t.mapStart else r.End())
      && Mmap(t, q).0.areas == WithArea(t.areas, r.start, r.End())
  {
    if !q.Low() {
      BumpIff(t.mapStart, q.Pages());
      NoWrap(t.mapStart, q.Pages());
    }
  }

  /** A granted request below the bump area meets no region there, so it fits exactly if
      it stays clear of the regions in the bump area. */
  lemma LowFitsIff(heapMax: u64, t: Table, q: MmapArgs)
    requires Sound(heapMax, t) && Adds(t, q) && q.Low() && Mmap(t, q).1 != Panic && q.Pages() > 0
    ensures var start := q.Target(t.mapStart);
      Clear(t.regions, start, start + q.Pages()) <==> ClearAbove(heapMax, t.regions, start + q.Pages())
  {
    GrantedRange(t, q);
    var start := q.Target(t.mapStart);
    AboveIsClear(heapMax, t, start, start + q.Pages());
  }

  lemma AboveIsClear(heapMax: u64, t: Table, start: nat, end: nat)
    requires Sound(heapMax, t) && Free(t.areas, start, end) && start < end && start < heapMax
    ensures Clear(t.regions, start, end) <==> ClearAbove(heapMax, t.regions, end)
  {
    forall i | 0 <= i < |t.regions| && t.regions[i].len > 0
      ensures t.regions[i].start < heapMax ==> t.regions[i].End() <= start || end <= t.regions[i].start
    {
      if t.regions[i].start < heapMax {
        OwnedIsApart(t, t.regions[i], start, end);
      }
    }
  }

  /** After a granted mapping below the bump area the regions are disjoint exactly if
      every region in the bump area starts at or above its end; and then the next range
      handed out there is clear of it exactly if it ends before that. A mapping in the
      bump area is always clear. */
  lemma {:induction false} MmapDisjointIff(heapMax: u64, t: Table, q: MmapArgs)
    requires Sound(heapMax, t) && Adds(t, q) && Mmap(t, q).1 != Panic && q.Pages() > 0
    ensures Disjoint(Mmap(t, q).0.regions) <==>
      !q.Low() || ClearAbove(heapMax, t.regions, q.Target(t.mapStart) + q.Pages())
  {
    GrantedRange(t, q);
    AppendDisjointIff(t.regions, NewRegion(t.mapStart, q));
    if q.Low() {
      LowFitsIff(heapMax, t, q);
    }
  }

  lemma {:induction false} NextReservationIff(heapMax: u64, t: Table, q: MmapArgs, len: u64, prot: set<Prot>,
                                              flags: set<Flag>)
    requires Sound(heapMax, t) && Adds(t, q) && q.Low() && Mmap(t, q).1 != Panic && q.Pages() > 0
    requires Disjoint(Mmap(t, q).0.regions) && AlignUp4K(len) > 0
    ensures Disjoint(Reserve(Mmap(t, q).0, len, prot, flags).0.regions) <==>
      q.Target(t.mapStart) + q.Pages() <= t.mapStart || t.mapStart + AlignUp4K(len) >= USIZE_RANGE
  {
    var t1, low := Mmap(t, q).0, NewRegion(t.mapStart, q);
    var next := MMapRegion(t.mapStart, AlignUp4K(len), AlignUp4K(len), prot, flags, None, 0);
    GrantedRange(t, q);
    assert t1.regions == t.regions + [low] && low.start < heapMax;
    AppendDisjointIff(t1.regions, next);
    assert t1.regions[|t.regions|] == low;
    forall i | 0 <= i < |t1.regions| && i != |t.regions| ensures t1.regions[i] == t.regions[i] {
    }
  }

  lemma OwnedKept(t: Table, t': Table, r: MMapRegion)
    requires Owned(t, r)
    requires forall s :: s in t.areas ==> s in t'.areas && t'.areas[s] == t.areas[s]
    requires forall a: nat {:trigger View(t.regions, a)} {:trigger View(t'.regions, a)} ::
      View(t.regions, a).Some? ==> View(t'.regions, a).Some?
    ensures Owned(t', r)
  {
    var s :| s in t.areas && Owns(t, s, r);
    assert Owns(t', s, r);
  }

  lemma ViewAppended(regions: seq<MMapRegion>, r: MMapRegion, a: nat)
    requires Disjoint(regions + [r])
    ensures View(regions + [r], a).Some? <==> r.Contains(a) || View(regions, a).Some?
  {
    AppendIsUpdate(regions, r);
  }

  /** Adding a region with its own area keeps a table sound. */
  lemma AddKeepsSound(heapMax: u64, t: Table, r: MMapRegion, t': Table)
    requires Sound(heapMax, t) && Tidy(heapMax, t') && t'.regions == t.regions + [r]
    requires Free(t.areas, r.start, r.End()) && t'.areas == WithArea(t.areas, r.start, r.End())
    ensures Sound(heapMax, t')
  {
    AreaAdded(t.areas, r.start, r.End());
    forall a: nat ensures View(t'.regions, a).Some? <==> r.Contains(a) || View(t.regions, a).Some? {
      ViewAppended(t.regions, r, a);
    }
    forall i | 0 <= i < |t'.regions| && t'.regions[i].len > 0 && t'.regions[i].start < heapMax
      ensures Owned(t', t'.regions[i])
    {
      if i < |t.regions| {
        assert t'.regions[i] == t.regions[i];
        OwnedKept(t, t', t.regions[i]);
      } else {
        assert t'.regions[i] == r && Owns(t', r.start, r);
      }
    }
  }

  /** So does adding one in the bump area without an area. */
  lemma ReservedKeepsSound(heapMax: u64, t: Table, r: MMapRegion, t': Table)
    requires Sound(heapMax, t) && Tidy(heapMax, t') && t'.regions == t.regions + [r] && t'.areas == t.areas
    requires r.start >= heapMax
    ensures Sound(heapMax, t')
  {
    forall a: nat ensures View(t'.regions, a).Some? <==> r.Contains(a) || View(t.regions, a).Some? {
      ViewAppended(t.regions, r, a);
    }
    forall i | 0 <= i < |t'.regions| && t'.regions[i].len > 0 && t'.regions[i].start < heapMax
      ensures Owned(t', t'.regions[i])
    {
      assert t'.regions[i] == t.regions[i];
      OwnedKept(t, t', t.regions[i]);
    }
  }

  /** Among granted requests that add a region, exactly those with room keep the table
      sound. */
  lemma {:induction false} MmapSoundIff(heapMax: u64, t: Table, q: MmapArgs)
    requires Sound(heapMax, t) && Adds(t, q) && Mmap(t, q).1 != Panic
    ensures Sound(heapMax, Mmap(t, q).0) <==> HasRoom(heapMax, t, q)
  {
    MmapTidyIff(heapMax, t, q);
    FitsIfRoom(heapMax, t, q);
    if HasRoom(heapMax, t, q) {
      GrantedRange(t, q);
      AddKeepsSound(heapMax, t, NewRegion(t.mapStart, q), Mmap(t, q).0);
    }
  }

  lemma FitsIfRoom(heapMax: u64, t: Table, q: MmapArgs)
    requires Sound(heapMax, t) && Adds(t, q) && Mmap(t, q).1 != Panic
    ensures Fits(t, q) <==> HasRoom(heapMax, t, q)
  {
    if q.Low() && q.Pages() > 0 {
      LowFitsIff(heapMax, t, q);
    }
  }

  lemma {:induction false} RelabelKeepsSound(heapMax: u64, t: Table, q: MmapArgs)
    requires Sound(heapMax, t) && Relabels(t.regions, q) && !q.Wraps()
    ensures Sound(heapMax, Relabelled(t, q))
  {
    var t' := Relabelled(t, q);
    RelabelTidyIff(heapMax, t, q);
    RelabelledRegions(t, q);
    forall a: nat ensures View(t'.regions, a).Some? <==> View(t.regions, a).Some? {
      RelabelKeepsCover(t, q, a);
    }
    forall k | 0 <= k < |t'.regions| && t'.regions[k].len > 0 && t'.regions[k].start < heapMax
      ensures Owned(t', t'.regions[k])
    {
      assert t'.regions[k] in t'.regions;
      if t'.regions[k] in t.regions {
        OwnedKept(t, t', t'.regions[k]);
      } else {
        OwnedPart(t, t', t.regions[Find(t.regions, PageOf(q.start))], t'.regions[k]);
      }
    }
  }

  lemma OwnedPart(t: Table, t': Table, r: MMapRegion, part: MMapRegion)
    requires Owned(t, r) && t'.areas == t.areas && r.start <= part.start && part.End() <= r.End()
    requires forall a: nat {:trigger View(t.regions, a)} {:trigger View(t'.regions, a)} ::
      View(t.regions, a).Some? ==> View(t'.regions, a).Some?
    ensures Owned(t', part)
  {
    var s :| s in t.areas && Owns(t, s, r);
    assert Owns(t', s, part);
  }

  /** A munmap call names a region: its start and its length. */
  predicate Names(t: Table, start: nat, len: nat) {
    var i := Find(t.regions, start);
    i < |t.regions| && t.regions[i].start == start && len == t.regions[i].len
  }

  /** munmap panics exactly on a region that no area starts with. Below the bump area
      that is a region which MAP_FIXED has cut off the front of an area. */
  lemma {:induction false} MunmapPanicsIff(heapMax: u64, t: Table, start: nat, len: nat)
    requires Sound(heapMax, t) && Names(t, start, len)
    ensures Munmap(t, start, len).1 == Panic <==> start !in t.areas
    ensures start < heapMax ==> (Munmap(t, start, len).1 == Panic <==>
      exists s :: s in t.areas && s < start < t.areas[s])
  {
    if start < heapMax {
      var s :| s in t.areas && Owns(t, s, t.regions[Find(t.regions, start)]);
    }
  }

  /** The area that goes with the region ends with the region, or the region reaches into
      the bump area. */
  predicate TakesWhole(heapMax: u64, t: Table, start: nat, len: nat) {
    start in t.areas ==> t.areas[start] == start + len || start + len >= heapMax
  }

  /** munmap takes the whole area that starts with its region. So the regions that are
      left keep their areas exactly if that area ends where the region ends. */
  lemma {:induction false} MunmapSoundIff(heapMax: u64, t: Table, start: nat, len: nat)
    requires Sound(heapMax, t) && Munmap(t, start, len).1 == Addr(0)
    ensures Sound(heapMax, Munmap(t, start, len).0) <==> TakesWhole(heapMax, t, start, len)
  {
    MunmapKeepsTidy(heapMax, t, start, len);
    if TakesWhole(heapMax, t, start, len) {
      MunmapKeepsSound(heapMax, t, start, len);
    } else {
      CutOffUnowned(heapMax, t, start, len);
    }
  }

  /** A region below the bump area that an area starts with is owned by that area. */
  lemma OwnedByStart(heapMax: u64, t: Table, i: nat)
    requires Sound(heapMax, t) && i < |t.regions| && t.regions[i].len > 0 && t.regions[i].start < heapMax
    requires t.regions[i].start in t.areas
    ensures Owns(t, t.regions[i].start, t.regions[i])
  {
    var s :| s in t.areas && Owns(t, s, t.regions[i]);
  }

  /** An area other than the one that starts with the region holds nothing of it. */
  lemma OtherAreaApart(heapMax: u64, t: Table, i: nat, s: nat)
    requires Sound(heapMax, t) && i < |t.regions| && t.regions[i].len > 0
    requires t.regions[i].start in t.areas && s in t.areas && s != t.regions[i].start && s < heapMax
    ensures t.regions[i].End() <= s || t.areas[s] <= t.regions[i].start
  {
    var start := t.regions[i].start;
    if start < heapMax {
      OwnedByStart(heapMax, t, i);
    }
  }

  lemma MunmapKeepsSound(heapMax: u64, t: Table, start: nat, len: nat)
    requires Sound(heapMax, t) && Munmap(t, start, len).1 == Addr(0) && TakesWhole(heapMax, t, start, len)
    ensures Sound(heapMax, Munmap(t, start, len).0)
  {
    var t', i := Munmap(t, start, len).0, Find(t.regions, start);
    MunmapKeepsTidy(heapMax, t, start, len);
    forall k | 0 <= k < |t'.regions| && t'.regions[k].len > 0 && t'.regions[k].start < heapMax
      ensures Owned(t', t'.regions[k])
    {
      var k' := if k < i then k else k + 1;
      assert t'.regions[k] == t.regions[k'];
      StillOwned(heapMax, t, start, len, k');
    }
  }

  lemma StillOwned(heapMax: u64, t: Table, start: nat, len: nat, k: nat)
    requires Sound(heapMax, t) && Munmap(t, start, len).1 == Addr(0) && TakesWhole(heapMax, t, start, len)
    requires k < |t.regions| && k != Find(t.regions, start) && t.regions[k].len > 0 && t.regions[k].start < heapMax
    ensures Owned(Munmap(t, start, len).0, t.regions[k])
  {
    var t', i := Munmap(t, start, len).0, Find(t.regions, start);
    MunmapKeepsTidy(heapMax, t, start, len);
    var s :| s in t.areas && Owns(t, s, t.regions[k]);
    assert Apart(t.regions[i], t.regions[k]) by {
      assert if i < k then Apart(t.regions[i], t.regions[k]) else Apart(t.regions[k], t.regions[i]);
    }
    assert s != start;
    OtherAreaApart(heapMax, t, i, s);
    assert Owns(t', s, t.regions[k]);
  }

  /** Otherwise the region right behind has lost its area. */
  lemma CutOffUnowned(heapMax: u64, t: Table, start: nat, len: nat)
    requires Sound(heapMax, t) && Munmap(t, start, len).1 == Addr(0) && !TakesWhole(heapMax, t, start, len)
    ensures !Sound(heapMax, Munmap(t, start, len).0)
  {
    var t', i := Munmap(t, start, len).0, Find(t.regions, start);
    OwnedByStart(heapMax, t, i);
    var k := RegionBehind(heapMax, t, start, len);
    assert t'.regions[if k < i then k else k - 1] == t.regions[k];
    forall s | s in t'.areas ensures !Owns(t', s, t.regions[k]) {
      assert s in t.areas && t'.areas[s] == t.areas[s] && (s < start ==> t.areas[s] <= start) &&
        (start < s ==> t.areas[start] <= s);
    }
  }

  lemma RegionBehind(heapMax: u64, t: Table, start: nat, len: nat) returns (k: nat)
    requires Sound(heapMax, t) && Munmap(t, start, len).1 == Addr(0) && !TakesWhole(heapMax, t, start, len)
    ensures k < |t.regions| && k != Find(t.regions, start) && t.regions[k].Contains(start + len)
    ensures start + len <= t.regions[k].start < heapMax
  {
    var i := Find(t.regions, start);
    OwnedByStart(heapMax, t, i);
    k := Find(t.regions, start + len);
    assert View(t.regions, start + len).Some? && Apart(t.regions[Min(i, k)], t.regions[Max(i, k)]);
  }

  // ---------------------------------------------------------------- runs

  /** A call, the heap growing to a new end, or another part of the kernel mapping an area: a
      stack, the pages of the vDSO. Or the table passes to another heap and address space: exec
      replaces them and keeps the table, and after a fork two processes share one. */
  datatype Event =
    | CallMmap(args: MmapArgs)
    | CallMunmap(start: nat, length: nat)
    | CallReserve(len: u64, prot: set<Prot>, flags: set<Flag>)
    | HeapGrows(newEnd: u64)
    | MapsOther(start: nat, end: nat)
    | Switches(heap: HeapRange, areas: map<nat, nat>)

  function Do(t: Table, e: Event): (Table, CallResult) {
    match e
    case CallMmap(q) => Mmap(t, q)
    case CallMunmap(start, length) => Munmap(t, start, length)
    case CallReserve(len, prot, flags) => Reserve(t, len, prot, flags)
    case HeapGrows(newEnd) =>
      if newEnd <= t.heap.end then (t, Addr(newEnd))
      else if Free(t.areas, t.heap.end, newEnd) then
        (t.(areas := WithArea(t.areas, t.heap.end, newEnd), heap := t.heap.(end := newEnd)), Addr(newEnd))
      else (t, Panic)
    case MapsOther(start, end) =>
      if Free(t.areas, start, end) then (t.(areas := WithArea(t.areas, start, end)), Addr(start)) else (t, Panic)
    case Switches(heap, areas) => (t.(heap := heap, areas := areas), Addr(0))
  }

  function After(t: Table, run: seq<Event>): Table
    decreases |run|
  {
    if run == [] then t else After(Do(t, run[0]).0, run[1..])
  }

  function Replies(t: Table, run: seq<Event>): seq<CallResult>
    decreases |run|
  {
    if run == [] then [] else [Do(t, run[0]).1] + Replies(Do(t, run[0]).0, run[1..])
  }

  /** What the event asks of the table: a new region fits it, a relabelling does not wrap,
      neither does the bump area, and every heap starts below that. munmap asks nothing. */
  predicate FitsEvent(heapMax: u64, t: Table, e: Event) {
    match e
    case CallMmap(q) => Accepts(t, q) ==> if Relabels(t.regions, q) then !q.Wraps() else Fits(t, q)
    case CallReserve(len, prot, flags) => AlignUp4K(len) > 0 ==> t.mapStart + AlignUp4K(len) <= USIZE_RANGE - FRAME_SIZE
    case Switches(heap, _) => heap.start < heapMax
    case _ => true
  }

  lemma StepTidyIff(heapMax: u64, t: Table, e: Event)
    requires Tidy(heapMax, t)
    ensures Tidy(heapMax, Do(t, e).0) <==> FitsEvent(heapMax, t, e)
  {
    match e {
      case CallMmap(q) =>
        if Adds(t, q) {
          MmapTidyIff(heapMax, t, q);
        } else {
          OtherMmapTidyIff(heapMax, t, q);
        }
      case CallMunmap(start, length) => MunmapKeepsTidy(heapMax, t, start, length);
      case CallReserve(len, prot, flags) =>
        if AlignUp4K(len) > 0 {
          ReserveTidyIff(heapMax, t, len, prot, flags);
        }
      case HeapGrows(_) =>
      case MapsOther(_, _) =>
      case Switches(_, _) =>
    }
  }

  ghost predicate TidyThroughout(heapMax: u64, t: Table, run: seq<Event>)
    decreases |run|
  {
    Tidy(heapMax, t) && (run == [] || TidyThroughout(heapMax, Do(t, run[0]).0, run[1..]))
  }

  predicate FitsThroughout(heapMax: u64, t: Table, run: seq<Event>)
    decreases |run|
  {
    run == [] || (FitsEvent(heapMax, t, run[0]) && FitsThroughout(heapMax, Do(t, run[0]).0, run[1..]))
  }

  /** Over any run, regions are disjoint and below the bump pointer all along exactly if
      every region added fits the table of that moment. It does not matter what is
      unmapped, nor what area goes with it, nor which address space the table goes with. */
  lemma {:induction false} RunTidyIff(heapMax: u64, t: Table, run: seq<Event>)
    requires Tidy(heapMax, t)
    ensures TidyThroughout(heapMax, t, run) <==> FitsThroughout(heapMax, t, run)
    decreases |run|
  {
    if run != [] {
      StepTidyIff(heapMax, t, run[0]);
      if FitsEvent(heapMax, t, run[0]) {
        RunTidyIff(heapMax, Do(t, run[0]).0, run[1..]);
      }
    }
  }

  /** The event has room in the bump area, munmap takes a whole area, and the table passes to
      another address space only without regions below the bump area; there the address space
      sees to the rest, by refusing. */
  ghost predicate RoomForEvent(heapMax: u64, t: Table, e: Event) {
    match e
    case CallMmap(q) =>
      && Mmap(t, q).1 != Panic
      && (Accepts(t, q) ==> if Relabels(t.regions, q) then !q.Wraps() else HasRoom(heapMax, t, q))
    case CallMunmap(start, length) => Munmap(t, start, length).1 == Addr(0) ==> TakesWhole(heapMax, t, start, length)
    case Switches(heap, areas) =>
      heap.start < heapMax && AreasOk(areas) && forall r :: r in t.regions && r.len > 0 ==> r.start >= heapMax
    case _ => FitsEvent(heapMax, t, e)
  }

  /** Such an event keeps the table sound, and the range it adds fits. */
  lemma {:induction false} StepKeepsSound(heapMax: u64, t: Table, e: Event)
    requires Sound(heapMax, t) && RoomForEvent(heapMax, t, e)
    ensures Sound(heapMax, Do(t, e).0) && FitsEvent(heapMax, t, e)
  {
    match e {
      case CallMmap(q) =>
        if Adds(t, q) {
          MmapSoundIff(heapMax, t, q);
        } else if Mmap(t, q).0 != t {
          RelabelKeepsSound(heapMax, t, q);
        }
      case CallMunmap(start, length) =>
        if Munmap(t, start, length).1 == Addr(0) {
          MunmapSoundIff(heapMax, t, start, length);
        }
      case CallReserve(len, prot, flags) =>
        if AlignUp4K(len) > 0 {
          ReserveKeepsSound(heapMax, t, len, prot, flags);
        }
      case HeapGrows(newEnd) => AreaKeepsSound(heapMax, t, t.heap.end, Max(t.heap.end, newEnd), Do(t, e).0);
      case MapsOther(start, end) => AreaKeepsSound(heapMax, t, start, end, Do(t, e).0);
      case Switches(_, _) =>
    }
    StepTidyIff(heapMax, t, e);
  }

  lemma ReserveKeepsSound(heapMax: u64, t: Table, len: u64, prot: set<Prot>, flags: set<Flag>)
    requires Sound(heapMax, t) && AlignUp4K(len) > 0 && t.mapStart + AlignUp4K(len) <= USIZE_RANGE - FRAME_SIZE
    ensures Sound(heapMax, Reserve(t, len, prot, flags).0)
  {
    ReserveTidyIff(heapMax, t, len, prot, flags);
    ReservedKeepsSound(heapMax, t, MMapRegion(t.mapStart, AlignUp4K(len), AlignUp4K(len), prot, flags, None, 0),
      Reserve(t, len, prot, flags).0);
  }

  /** So does any area that another part of the kernel maps, or fails to. */
  lemma AreaKeepsSound(heapMax: u64, t: Table, start: nat, end: nat, t': Table)
    requires Sound(heapMax, t) && t'.regions == t.regions && t'.mapStart == t.mapStart && t'.heap.start == t.heap.start
    requires t'.areas == if Free(t.areas, start, end) then WithArea(t.areas, start, end) else t.areas
    ensures Sound(heapMax, t')
  {
    if Free(t.areas, start, end) {
      AreaAdded(t.areas, start, end);
      forall i | 0 <= i < |t.regions| && t.regions[i].len > 0 && t.regions[i].start < heapMax
        ensures Owned(t', t.regions[i])
      {
        OwnedKept(t, t', t.regions[i]);
      }
    }
  }

  ghost predicate RoomThroughout(heapMax: u64, t: Table, run: seq<Event>)
    decreases |run|
  {
    run == [] || (RoomForEvent(heapMax, t, run[0]) && RoomThroughout(heapMax, Do(t, run[0]).0, run[1..]))
  }

  /** As long as munmap takes whole areas, staying clear of the bump area is enough to
      keep regions disjoint over any run. */
  lemma {:induction false} RunStaysSound(heapMax: u64, t: Table, run: seq<Event>)
    requires Sound(heapMax, t) && RoomThroughout(heapMax, t, run)
    ensures Sound(heapMax, After(t, run)) && FitsThroughout(heapMax, t, run)
    decreases |run|
  {
    if run != [] {
      StepKeepsSound(heapMax, t, run[0]);
      RunStaysSound(heapMax, Do(t, run[0]).0, run[1..]);
    }
  }

  /** Regions are whole pages, whatever a run does. */
  lemma {:induction false} RunStaysPaged(t: Table, run: seq<Event>)
    requires Paged(t)
    ensures Paged(After(t, run))
    decreases |run|
  {
    if run != [] {
      StepStaysPaged(t, run[0]);
      RunStaysPaged(Do(t, run[0]).0, run[1..]);
    }
  }

  lemma StepStaysPaged(t: Table, e: Event)
    requires Paged(t)
    ensures Paged(Do(t, e).0)
  {
    match e {
      case CallMmap(q) =>
        if Accepts(t, q) && Relabels(t.regions, q) {
          RelabelStaysPaged(t, q);
        }
      case _ =>
    }
  }

  lemma RelabelStaysPaged(t: Table, q: MmapArgs)
    requires Paged(t) && Relabels(t.regions, q)
    ensures Paged(Relabelled(t, q))
  {
    var start, i := PageOf(q.start), Find(t.regions, PageOf(q.start));
    PiecesPaged(t.regions[i], start, q.Pages(), q.prot, q.flags, q.Fd(), q.offset);
    FoundIfContained(t.regions, i, t.regions[i].start);
    var pieces := Pieces(t.regions[i], start, q.Pages(), q.prot, q.flags, q.Fd(), q.offset);
    var rest := Without(t.regions, Find(t.regions, t.regions[i].start));
    forall r: MMapRegion | r in rest + pieces ensures r.WholePages() {
      assert r in rest || r in pieces;
    }
  }

  /** The ranges the bump allocator hands out over a run. */
  ghost function Handed(t: Table, run: seq<Event>): seq<(nat, nat)>
    decreases |run|
  {
    if run == [] then []
    else
      var t' := Do(t, run[0]).0;
      (if t'.mapStart == t.mapStart then [] else [(t.mapStart as nat, t'.mapStart as nat)]) + Handed(t', run[1..])
  }

  /** Page ranges that lie one above the other, all from `lo` on. */
  ghost predicate Stacked(h: seq<(nat, nat)>, lo: nat) {
    && (forall i :: 0 <= i < |h| ==> lo <= h[i].0 < h[i].1 && h[i].0 % FRAME_SIZE == 0 && h[i].1 % FRAME_SIZE == 0)
    && (forall i, j :: 0 <= i < j < |h| ==> h[i].1 <= h[j].0)
  }

  lemma StackedIff(h: seq<(nat, nat)>, range: (nat, nat))
    requires range.0 % FRAME_SIZE == 0 && range.1 % FRAME_SIZE == 0
    ensures Stacked([range] + h, range.0) <==> range.0 < range.1 && Stacked(h, range.1)
  {
    var all := [range] + h;
    assert all[0] == range && forall i :: 0 <= i < |h| ==> all[i + 1] == h[i];
    if Stacked(all, range.0) {
      forall i | 0 <= i < |h| ensures range.1 <= h[i].0 < h[i].1 {
        assert all[i + 1] == h[i] && all[0].1 <= all[i + 1].0;
      }
    }
  }

  /** The event moves the bump pointer, if it does, without a wrap. */
  predicate BumpFits(t: Table, e: Event) {
    match e
    case CallMmap(q) => Adds(t, q) && !q.Low() ==> t.mapStart + q.Pages() <= USIZE_RANGE - FRAME_SIZE
    case CallReserve(len, prot, flags) => t.mapStart + AlignUp4K(len) <= USIZE_RANGE - FRAME_SIZE
    case _ => true
  }

  predicate BumpsFit(t: Table, run: seq<Event>)
    decreases |run|
  {
    run == [] || (BumpFits(t, run[0]) && BumpsFit(Do(t, run[0]).0, run[1..]))
  }

  lemma StepBumpsIff(t: Table, e: Event)
    requires t.mapStart % FRAME_SIZE == 0
    ensures Do(t, e).0.mapStart % FRAME_SIZE == 0
    ensures t.mapStart <= Do(t, e).0.mapStart <==> BumpFits(t, e)
  {
    match e {
      case CallMmap(q) => BumpIff(t.mapStart, q.Pages());
      case CallReserve(len, prot, flags) => BumpIff(t.mapStart, AlignUp4K(len));
      case _ =>
    }
  }

  lemma BumpIff(start: u64, len: u64)
    requires start % FRAME_SIZE == 0 && len % FRAME_SIZE == 0
    ensures AlignUp4K((start + len) % USIZE_RANGE) >= start <==> start + len <= USIZE_RANGE - FRAME_SIZE
  {
    PageSums(start, len);
    PageResidue(start + len);
    PageAligned((start + len) % USIZE_RANGE);
  }

  /** Whatever else a run does, the ranges handed out start and end on pages and lie one
      above the other, so that no page is handed out twice, exactly if none of them wraps. */
  lemma {:induction false} NeverReused(t: Table, run: seq<Event>)
    requires t.mapStart % FRAME_SIZE == 0
    ensures Stacked(Handed(t, run), t.mapStart) <==> BumpsFit(t, run)
    decreases |run|
  {
    if run != [] {
      var t' := Do(t, run[0]).0;
      StepBumpsIff(t, run[0]);
      NeverReused(t', run[1..]);
      if t'.mapStart != t.mapStart {
        StackedIff(Handed(t', run[1..]), (t.mapStart, t'.mapStart));
        assert Handed(t, run) == [(t.mapStart as nat, t'.mapStart as nat)] + Handed(t', run[1..]);
      } else {
        assert Handed(t, run) == Handed(t', run[1..]);
      }
    }
  }

  // ---------------------------------------------------------------- runs that go wrong

  /** The table of a process that has not mapped anything. */
  function NewTable(heapMax: u64, heap: HeapRange, areas: map<nat, nat>): Table {
    Table(heapMax, heap, [], areas)
  }

  /** A mapping below the bump area that runs into it, and then a reservation: two calls
      that leave overlapping regions, in any process with an empty heap and nothing mapped
      from there up to the first page of the bump area. */
  lemma CrossingMappingOverlaps(heapMax: u64, start: u64, areas: map<nat, nat>)
    requires start < heapMax && heapMax % FRAME_SIZE == 0 && start % FRAME_SIZE == 0 && start > 0
    requires heapMax + FRAME_SIZE < USIZE_RANGE && Free(areas, start, heapMax + FRAME_SIZE)
    ensures var q := Crossing(heapMax, start);
      var (t1, r1) := Mmap(NewTable(heapMax, HeapRange(start, start), areas), q);
      var (t2, r2) := Reserve(t1, FRAME_SIZE, {}, {});
      r1 == Addr(start) && r2 == Addr(heapMax) && Disjoint(t1.regions) && !Disjoint(t2.regions)
  {
    var t, len := NewTable(heapMax, HeapRange(start, start), areas), heapMax - start + FRAME_SIZE;
    PageDifference(heapMax, start);
    PageSums(heapMax - start, FRAME_SIZE);
    Mapped(t, start, len);
    var t1 := Mmap(t, Crossing(heapMax, start)).0;
    ReservedNext(t1, heapMax);
    var t2 := Reserve(t1, FRAME_SIZE, {}, {}).0;
    assert t2.regions[0] == t1.regions[0] && !Apart(t2.regions[0], t2.regions[1]);
  }

  lemma ReservedNext(t: Table, at: u64)
    requires t.mapStart == at
    ensures var region := MMapRegion(at, FRAME_SIZE, FRAME_SIZE, {}, {}, None, 0);
      Reserve(t, FRAME_SIZE, {}, {}).1 == Addr(at) && Reserve(t, FRAME_SIZE, {}, {}).0.regions == t.regions + [region]
  {
    PageAligned(FRAME_SIZE);
  }

  function Crossing(heapMax: u64, start: u64): MmapArgs
    requires start < heapMax && heapMax + FRAME_SIZE < USIZE_RANGE
  {
    Anonymous(start, heapMax - start + FRAME_SIZE, {PROT_EXEC}, {})
  }

  function Anonymous(start: u64, len: u64, prot: set<Prot>, more: set<Flag>): MmapArgs {
    MmapArgs(start, len, prot, {MAP_PRIVATE, MAP_ANONYMOUS} + more, true, None, 0)
  }

  /** A mapping of free pages that starts below the heap's end and that no region meets. */
  lemma Mapped(t: Table, a: u64, len: u64)
    requires a % FRAME_SIZE == 0 && len % FRAME_SIZE == 0 && FRAME_SIZE <= a <= t.heap.start
    requires 0 < len && a + len < USIZE_RANGE && !t.heap.Holds(a, len)
    requires Find(t.regions, a) == |t.regions| && Free(t.areas, a, a + len)
    ensures Mmap(t, Anonymous(a, len, {PROT_EXEC}, {})) ==
      (t.(regions := t.regions + [MMapRegion(a, len, len, {PROT_EXEC}, {MAP_PRIVATE, MAP_ANONYMOUS}, None, 0)],
          areas := t.areas[a := a + len]),
       Addr(a))
  {
    PageAligned(len);
    assert PageOf(a) == a;
    assert {MAP_PRIVATE, MAP_ANONYMOUS} + {} == {MAP_PRIVATE, MAP_ANONYMOUS};
  }

  /** Relabelling the middle page of three. */
  lemma MiddleRelabelled(t: Table, a: u64, r: MMapRegion)
    requires a % FRAME_SIZE == 0 && a + 3 * FRAME_SIZE <= t.heap.start
    requires t.regions == [r] && r.start == a && r.len == 3 * FRAME_SIZE
    ensures var (t', reply) := Mmap(t, Anonymous(a + FRAME_SIZE, FRAME_SIZE, {}, {MAP_FIXED}));
      && reply == Addr(a + FRAME_SIZE) && t' == t.(regions := t'.regions) && |t'.regions| == 3
      && t'.regions[0].start == a && t'.regions[0].len == FRAME_SIZE
      && t'.regions[1].start == a + 2 * FRAME_SIZE && t'.regions[1].len == FRAME_SIZE
      && t'.regions[2].start == a + FRAME_SIZE && t'.regions[2].len == FRAME_SIZE
  {
    var q := Anonymous(a + FRAME_SIZE, FRAME_SIZE, {}, {MAP_FIXED});
    assert AlignUp4K(q.len) == q.len && PageOf(q.start) == q.start;
    assert Find(t.regions, q.start) == 0 && Find(t.regions, r.start) == 0;
    PageSums(a, FRAME_SIZE);
    InnerPieces(r, q.start, q.len, q.prot, q.flags, q.Fd(), q.offset);
    assert Without(t.regions, 0) == [];
  }

  /** Unmapping the first page takes the area of all three. */
  lemma FrontUnmapped(t: Table, a: nat, areas: map<nat, nat>)
    requires |t.regions| == 3 && t.regions[0].start == a && t.regions[0].len == FRAME_SIZE
    requires t.regions[1].start == a + 2 * FRAME_SIZE && t.regions[2].start == a + FRAME_SIZE
    requires a !in areas && t.areas == areas[a := a + 3 * FRAME_SIZE]
    ensures Munmap(t, a, FRAME_SIZE) == (t.(regions := [t.regions[1], t.regions[2]], areas := areas), Addr(0))
    ensures Find([t.regions[1], t.regions[2]], a) == 2
  {
    assert Without(t.regions, 0) == [t.regions[1], t.regions[2]];
    assert t.areas - {a} == areas;
    assert [t.regions[1], t.regions[2]][1..] == [t.regions[2]];
  }

  function SplitUnmapRun(a: u64): seq<Event>
    requires a + 3 * FRAME_SIZE < USIZE_RANGE
  {
    [CallMmap(Anonymous(a, 3 * FRAME_SIZE, {PROT_EXEC}, {})),
     CallMmap(Anonymous(a + FRAME_SIZE, FRAME_SIZE, {}, {MAP_FIXED})),
     CallMunmap(a, FRAME_SIZE),
     CallMmap(Anonymous(a, 2 * FRAME_SIZE, {PROT_EXEC}, {}))]
  }

  lemma FirstOf(t: Table, e: Event, rest: seq<Event>, t': Table, r: CallResult)
    requires Do(t, e) == (t', r)
    ensures After(t, [e] + rest) == After(t', rest) && Replies(t, [e] + rest) == [r] + Replies(t', rest)
  {
  }

  function WrappedRun(a: u64): seq<Event>
    requires a + 3 * FRAME_SIZE < USIZE_RANGE
  {
    [CallMmap(Anonymous(a, 3 * FRAME_SIZE, {PROT_EXEC}, {})),
     CallMmap(Anonymous(a + FRAME_SIZE, USIZE_RANGE - FRAME_SIZE, {}, {MAP_FIXED}))]
  }

  /** Two calls that leave overlapping regions: map three pages, and ask for all but one page
      of the address space from the second one on. The call is granted, the region behind the
      second page starts at the first, and both regions contain that. */
  lemma {:induction false} WrappedRequestOverlaps(heapMax: u64, heap: HeapRange, a: u64, areas: map<nat, nat>)
    requires a % FRAME_SIZE == 0 && FRAME_SIZE <= a && a + 3 * FRAME_SIZE <= heap.start
    requires Free(areas, a, a + 3 * FRAME_SIZE)
    ensures Replies(NewTable(heapMax, heap, areas), WrappedRun(a)) == [Addr(a), Addr(a + FRAME_SIZE)]
    ensures var regions := After(NewTable(heapMax, heap, areas), WrappedRun(a)).regions;
      |regions| == 3 && regions[0].Contains(a) && regions[1].Contains(a) && !Disjoint(regions)
  {
    var t0, q := NewTable(heapMax, heap, areas), Anonymous(a + FRAME_SIZE, USIZE_RANGE - FRAME_SIZE, {}, {MAP_FIXED});
    Mapped(t0, a, 3 * FRAME_SIZE);
    var t1 := Mmap(t0, Anonymous(a, 3 * FRAME_SIZE, {PROT_EXEC}, {})).0;
    WrappedRelabels(t1, a, t1.regions[0], q);
    var t2 := Relabelled(t1, q);
    TwoCalls(t0, WrappedRun(a)[0], CallMmap(q), t1, Addr(a), t2, Addr(a + FRAME_SIZE));
    assert !Apart(t2.regions[0], t2.regions[1]);
  }

  lemma TwoCalls(t: Table, d: Event, e: Event, t1: Table, r1: CallResult, t2: Table, r2: CallResult)
    requires Do(t, d) == (t1, r1) && Do(t1, e) == (t2, r2)
    ensures After(t, [d, e]) == t2 && Replies(t, [d, e]) == [r1, r2]
  {
    FirstOf(t1, e, [], t2, r2);
    FirstOf(t, d, [e], t1, r1);
    assert [d, e] == [d] + [e] && [e] == [e] + [];
  }

  lemma WrappedRelabels(t: Table, a: u64, r: MMapRegion, q: MmapArgs)
    requires a % FRAME_SIZE == 0 && a + 3 * FRAME_SIZE <= t.heap.start
    requires t.regions == [r] && r.start == a && r.len == 3 * FRAME_SIZE
    requires q == Anonymous(a + FRAME_SIZE, USIZE_RANGE - FRAME_SIZE, {}, {MAP_FIXED})
    ensures Relabels(t.regions, q) && Mmap(t, q) == (Relabelled(t, q), Addr(a + FRAME_SIZE))
    ensures var regions := Relabelled(t, q).regions;
      && |regions| == 3
      && regions[0].start == a && regions[0].End() == a + FRAME_SIZE
      && regions[1].start == a && regions[1].End() == a + 3 * FRAME_SIZE
  {
    PageSums(a, FRAME_SIZE);
    PageAligned(q.len);
    assert PageOf(q.start) == q.start && q.Pages() == q.len;
    assert Find(t.regions, q.start) == 0 && Find(t.regions, r.start) == 0;
    var left, beyond, middle := WrappedPieces(r, q.start, q.len, q.prot, q.flags, q.Fd(), q.offset);
    assert Without(t.regions, 0) == [];
  }

  /** Four calls that leave overlapping regions: map three pages, relabel the middle one,
      unmap the first one, which takes the area of all three, and map the first two anew.
      It works wherever three pages are free below the heap. */
  lemma {:induction false} SplitUnmapOverlaps(heapMax: u64, heap: HeapRange, a: u64, areas: map<nat, nat>)
    requires a % FRAME_SIZE == 0 && FRAME_SIZE <= a && a + 3 * FRAME_SIZE <= heap.start
    requires Free(areas, a, a + 3 * FRAME_SIZE) && a !in areas
    ensures Replies(NewTable(heapMax, heap, areas), SplitUnmapRun(a)) ==
      [Addr(a), Addr(a + FRAME_SIZE), Addr(0), Addr(a)]
    ensures !Disjoint(After(NewTable(heapMax, heap, areas), SplitUnmapRun(a)).regions)
  {
    var t1 := SplitUnmapFirst(heapMax, heap, a, areas);
    SplitUnmapRest(a, areas, t1);
    FirstOf(NewTable(heapMax, heap, areas), SplitUnmapRun(a)[0], SplitUnmapRun(a)[1..], t1, Addr(a));
    assert SplitUnmapRun(a) == [SplitUnmapRun(a)[0]] + SplitUnmapRun(a)[1..];
  }

  lemma SplitUnmapFirst(heapMax: u64, heap: HeapRange, a: u64, areas: map<nat, nat>) returns (t: Table)
    requires a % FRAME_SIZE == 0 && FRAME_SIZE <= a && a + 3 * FRAME_SIZE <= heap.start
    requires Free(areas, a, a + 3 * FRAME_SIZE)
    ensures Do(NewTable(heapMax, heap, areas), SplitUnmapRun(a)[0]) == (t, Addr(a))
    ensures |t.regions| == 1 && t.regions[0].start == a && t.regions[0].len == 3 * FRAME_SIZE
    ensures t.areas == areas[a := a + 3 * FRAME_SIZE]
  {
    Mapped(NewTable(heapMax, heap, areas), a, 3 * FRAME_SIZE);
    t := Mmap(NewTable(heapMax, heap, areas), Anonymous(a, 3 * FRAME_SIZE, {PROT_EXEC}, {})).0;
  }

  lemma SplitUnmapLater(a: u64, t: Table) returns (t': Table)
    requires a % FRAME_SIZE == 0 && a + 3 * FRAME_SIZE <= t.heap.start
    requires |t.regions| == 1 && t.regions[0].start == a && t.regions[0].len == 3 * FRAME_SIZE
    ensures Do(t, SplitUnmapRun(a)[1]) == (t', Addr(a + FRAME_SIZE)) && ThreePages(t', a) && t'.areas == t.areas
  {
    MiddleRelabelled(t, a, t.regions[0]);
    assert SplitUnmapRun(a)[1] == CallMmap(Anonymous(a + FRAME_SIZE, FRAME_SIZE, {}, {MAP_FIXED}));
    t' := Mmap(t, Anonymous(a + FRAME_SIZE, FRAME_SIZE, {}, {MAP_FIXED})).0;
  }

  lemma SplitUnmapRest(a: u64, areas: map<nat, nat>, t: Table)
    requires a % FRAME_SIZE == 0 && FRAME_SIZE <= a && a + 3 * FRAME_SIZE <= t.heap.start
    requires Free(areas, a, a + 3 * FRAME_SIZE) && a !in areas
    requires |t.regions| == 1 && t.regions[0].start == a && t.regions[0].len == 3 * FRAME_SIZE
    requires t.areas == areas[a := a + 3 * FRAME_SIZE]
    ensures Replies(t, SplitUnmapRun(a)[1..]) == [Addr(a + FRAME_SIZE), Addr(0), Addr(a)]
    ensures !Disjoint(After(t, SplitUnmapRun(a)[1..]).regions)
  {
    var t' := SplitUnmapLater(a, t);
    SplitUnmapLast(a, areas, t');
    FirstOf(t, SplitUnmapRun(a)[1], SplitUnmapRun(a)[2..], t', Addr(a + FRAME_SIZE));
    assert SplitUnmapRun(a)[1..] == [SplitUnmapRun(a)[1]] + SplitUnmapRun(a)[2..];
  }

  /** Three regions of a page each, the middle one last. */
  ghost predicate ThreePages(t: Table, a: nat) {
    && |t.regions| == 3 && (forall i :: 0 <= i < 3 ==> t.regions[i].len == FRAME_SIZE)
    && t.regions[0].start == a && t.regions[1].start == a + 2 * FRAME_SIZE && t.regions[2].start == a + FRAME_SIZE
  }

  lemma SplitUnmapLast(a: u64, areas: map<nat, nat>, t: Table)
    requires a % FRAME_SIZE == 0 && FRAME_SIZE <= a && a + 3 * FRAME_SIZE <= t.heap.start
    requires Free(areas, a, a + 3 * FRAME_SIZE) && a !in areas
    requires ThreePages(t, a) && t.areas == areas[a := a + 3 * FRAME_SIZE]
    ensures Replies(t, SplitUnmapRun(a)[2..]) == [Addr(0), Addr(a)]
    ensures !Disjoint(After(t, SplitUnmapRun(a)[2..]).regions)
  {
    var run := SplitUnmapRun(a);
    var t3 := t.(regions := [t.regions[1], t.regions[2]], areas := areas);
    FrontUnmapped(t, a, areas);
    var t4 := FrontMappedAgain(t3, a);
    TwoCalls(t, run[2], run[3], t3, Addr(0), t4, Addr(a));
    assert run[2..] == [run[2], run[3]];
  }

  /** Two pages are mapped where the second belongs to a region. */
  lemma FrontMappedAgain(t: Table, a: u64) returns (t': Table)
    requires a % FRAME_SIZE == 0 && FRAME_SIZE <= a && a + 3 * FRAME_SIZE <= t.heap.start
    requires Free(t.areas, a, a + 2 * FRAME_SIZE) && Find(t.regions, a) == |t.regions| == 2
    requires t.regions[1].start == a + FRAME_SIZE && t.regions[1].len == FRAME_SIZE
    ensures Do(t, CallMmap(Anonymous(a, 2 * FRAME_SIZE, {PROT_EXEC}, {}))) == (t', Addr(a))
    ensures !Disjoint(t'.regions)
  {
    Mapped(t, a, 2 * FRAME_SIZE);
    t' := Mmap(t, Anonymous(a, 2 * FRAME_SIZE, {PROT_EXEC}, {})).0;
    assert t'.regions[1] == t.regions[1] && !Apart(t'.regions[1], t'.regions[2]);
  }

  function ExecRun(a: u64, heap: HeapRange, areas: map<nat, nat>): seq<Event>
    requires a + FRAME_SIZE < USIZE_RANGE
  {
    [CallMmap(Anonymous(a, FRAME_SIZE, {PROT_EXEC}, {})), Switches(heap, areas),
     CallMmap(Anonymous(a, FRAME_SIZE, {}, {MAP_FIXED}))]
  }

  /** Exec keeps the regions of the old program. Where the old one had mapped a page, the new
      one is granted a MAP_FIXED mapping of it, and no page is mapped. */
  lemma {:induction false} StaleRegionGrantsNothing(heapMax: u64, heap: HeapRange, a: u64, areas: map<nat, nat>,
                                                    heap': HeapRange, areas': map<nat, nat>)
    requires a % FRAME_SIZE == 0 && FRAME_SIZE <= a && a + FRAME_SIZE <= heap.start && a < heap'.start
    requires Free(areas, a, a + FRAME_SIZE) && Free(areas', a, a + FRAME_SIZE)
    ensures Replies(NewTable(heapMax, heap, areas), ExecRun(a, heap', areas')) == [Addr(a), Addr(0), Addr(a)]
    ensures Free(After(NewTable(heapMax, heap, areas), ExecRun(a, heap', areas')).areas, a, a + FRAME_SIZE)
  {
    var t0, run := NewTable(heapMax, heap, areas), ExecRun(a, heap', areas');
    Mapped(t0, a, FRAME_SIZE);
    var t1 := Mmap(t0, Anonymous(a, FRAME_SIZE, {PROT_EXEC}, {})).0;
    var t2 := t1.(heap := heap', areas := areas');
    PageRelabelled(t2, a);
    var t3 := Mmap(t2, Anonymous(a, FRAME_SIZE, {}, {MAP_FIXED})).0;
    TwoCalls(t1, run[1], run[2], t2, Addr(0), t3, Addr(a));
    FirstOf(t0, run[0], [run[1], run[2]], t1, Addr(a));
    assert run == [run[0]] + [run[1], run[2]];
  }

  lemma PageRelabelled(t: Table, a: u64)
    requires a % FRAME_SIZE == 0 && FRAME_SIZE <= a < t.heap.start
    requires |t.regions| == 1 && t.regions[0].Contains(a)
    ensures var (t', r) := Mmap(t, Anonymous(a, FRAME_SIZE, {}, {MAP_FIXED})); r == Addr(a) && t'.areas == t.areas
  {
    assert PageOf(a) == a;
  }
}
