/** Listing a directory into a buffer (common/vfs/vfs, kfile.rs:227-260). */
module Readdir {
  import opened Bytes
  import opened KFiles

  datatype Entry = Entry(name: seq<byte>, ino: u64, kind: byte)

  /** What the inode answers at an index below the number of entries. */
  datatype Slot = Has(entry: Entry) | Broken

  /** How a record is laid out: its fixed part, its size, and where the name starts. */
  datatype Layout = Layout(header: (Entry, nat) -> seq<byte>, size: Entry -> nat, nameOffset: nat) {
    /** A record has room for its fixed part and for its name with the closing zero. */
    ghost predicate Valid() {
      && (forall e: Entry, pos: nat {:trigger header(e, pos)} :: |header(e, pos)| <= size(e))
      && (forall e: Entry {:trigger size(e)} :: nameOffset + |e.name| + 1 <= size(e))
    }
  }

  datatype Result = Count(n: nat) | Unreadable

  /** How many entries from `pos` on fit one after another, and whether the listing got
      that far without meeting a broken one. */
  function Scan(dir: seq<Slot>, pos: nat, layout: Layout, room: int): (r: (nat, bool))
    ensures pos + r.0 <= Max(pos, |dir|)
    ensures forall i :: pos <= i < pos + r.0 ==> dir[i].Has?
    decreases |dir| - pos
  {
    if pos >= |dir| then (0, true)
    else if dir[pos].Broken? then (0, false)
    else if layout.size(dir[pos].entry) > room then (0, true)
    else
      var (k, ok) := Scan(dir, pos + 1, layout, room - layout.size(dir[pos].entry));
      (k + 1, ok)
  }

  /** The listing stops because the directory ends, at the first entry that cannot be read, or
      before the first record that has no room after the others; the records listed fit. */
  lemma {:induction false} ScanStops(dir: seq<Slot>, pos: nat, layout: Layout, room: nat)
    ensures var (k, ok) := Scan(dir, pos, layout, room);
      && (ok <==> pos + k >= |dir| || dir[pos + k].Has?)
      && Size(dir, pos, layout, k) <= room
      && (pos + k < |dir| && dir[pos + k].Has? ==> Size(dir, pos, layout, k) + layout.size(dir[pos + k].entry) > room)
    decreases |dir| - pos
  {
    if pos < |dir| && dir[pos].Has? && layout.size(dir[pos].entry) <= room {
      var rest := room - layout.size(dir[pos].entry);
      ScanStops(dir, pos + 1, layout, rest);
      SizeFront(dir, pos, layout, Scan(dir, pos + 1, layout, rest).0 + 1);
    }
  }

  lemma {:induction false} SizeFront(dir: seq<Slot>, pos: nat, layout: Layout, k: nat)
    requires 0 < k && pos + k <= |dir| && forall i :: pos <= i < pos + k ==> dir[i].Has?
    ensures Size(dir, pos, layout, k) == layout.size(dir[pos].entry) + Size(dir, pos + 1, layout, k - 1)
  {
    if k > 1 {
      SizeFront(dir, pos, layout, k - 1);
    }
  }

  /** The bytes that the `k` records from `pos` on take. */
  function Size(dir: seq<Slot>, pos: nat, layout: Layout, k: nat): nat
    requires k == 0 || pos + k <= |dir|
    requires forall i :: pos <= i < pos + k ==> dir[i].Has?
  {
    if k == 0 then 0 else Size(dir, pos, layout, k - 1) + layout.size(dir[pos + k - 1].entry)
  }

  /** The record at `at` carries the entry: its fixed part up to the name, and its name. */
  predicate Holds(s: seq<byte>, at: nat, layout: Layout, e: Entry, pos: nat) {
    var h := Min(|layout.header(e, pos)|, layout.nameOffset);
    && at + h <= |s| && at + layout.nameOffset + |e.name| + 1 <= |s|
    && s[at..at + h] == layout.header(e, pos)[..h]
    && s[at + layout.nameOffset..at + layout.nameOffset + |e.name| + 1] == e.name + [0]
  }

  /** The buffer starts with the records of the `k` entries from `pos` on. */
  ghost predicate Lists(s: seq<byte>, dir: seq<Slot>, pos: nat, layout: Layout, k: nat)
    requires k == 0 || pos + k <= |dir|
    requires forall i :: pos <= i < pos + k ==> dir[i].Has?
  {
    forall j :: 0 <= j < k ==> RecordAt(s, dir, pos, layout, j)
  }

  /** Record `j` of the buffer is the one of entry `pos + j`. */
  ghost predicate RecordAt(s: seq<byte>, dir: seq<Slot>, pos: nat, layout: Layout, j: nat)
    requires pos + j < |dir|
    requires forall i :: pos <= i <= pos + j ==> dir[i].Has?
  {
    Holds(s, Size(dir, pos, layout, j), layout, dir[pos + j].entry, pos + j)
  }

  /** Earlier records end before later ones start. */
  lemma {:induction false} SizeMonotone(dir: seq<Slot>, pos: nat, layout: Layout, j: nat, k: nat)
    requires j < k && pos + k <= |dir|
    requires forall i :: pos <= i < pos + k ==> dir[i].Has?
    ensures Size(dir, pos, layout, j) + layout.size(dir[pos + j].entry) <= Size(dir, pos, layout, k)
  {
    if j + 1 < k {
      SizeMonotone(dir, pos, layout, j, k - 1);
    }
  }

  lemma OneMoreRecord(s: seq<byte>, s': seq<byte>, dir: seq<Slot>, pos: nat, layout: Layout, k: nat)
    requires layout.Valid() && pos + k < |dir|
    requires forall i :: pos <= i <= pos + k ==> dir[i].Has?
    requires Lists(s, dir, pos, layout, k)
    requires var at := Size(dir, pos, layout, k);
      at <= |s| && at <= |s'| && s'[..at] == s[..at] && Holds(s', at, layout, dir[pos + k].entry, pos + k)
    ensures Lists(s', dir, pos, layout, k + 1)
  {
    var at := Size(dir, pos, layout, k);
    forall j | 0 <= j < k ensures RecordAt(s', dir, pos, layout, j) {
      assert RecordAt(s, dir, pos, layout, j);
      SizeMonotone(dir, pos, layout, j, k);
      HoldsInPrefix(s, s', at, Size(dir, pos, layout, j), layout, dir[pos + j].entry, pos + j);
    }
    assert RecordAt(s', dir, pos, layout, k);
  }

  lemma HoldsInPrefix(s: seq<byte>, s': seq<byte>, n: nat, at: nat, layout: Layout, e: Entry, pos: nat)
    requires layout.Valid() && Holds(s, at, layout, e, pos) && at + layout.size(e) <= n
    requires n <= |s| && n <= |s'| && s'[..n] == s[..n]
    ensures Holds(s', at, layout, e, pos)
  {
    var h, b, c := Min(|layout.header(e, pos)|, layout.nameOffset), at + layout.nameOffset, |e.name| + 1;
    SliceOfPrefix(s, s', n, at, at + h);
    SliceOfPrefix(s, s', n, b, b + c);
  }

  lemma SliceOfPrefix(s: seq<byte>, s': seq<byte>, n: nat, a: nat, b: nat)
    requires a <= b <= n <= |s| && n <= |s'| && s'[..n] == s[..n]
    ensures s'[a..b] == s[a..b]
  {
    assert s'[a..b] == s'[..n][a..b] && s[a..b] == s[..n][a..b];
  }

  /** Copies one record to `at`: the fixed part, then the name over its end. */
  method PutRecord(buf: array<byte>, at: nat, layout: Layout, e: Entry, pos: nat)
    requires layout.Valid() && at + layout.size(e) <= buf.Length
    modifies buf
    ensures Holds(buf[..], at, layout, e, pos)
    ensures buf[..at] == old(buf[..at]) && buf[at + layout.size(e)..] == old(buf[at + layout.size(e)..])
  {
    ghost var before, end := buf[..], at + layout.size(e);
    var slice := layout.header(e, pos);
    forall i | 0 <= i < |slice| {
      buf[at + i] := slice[i];
    }
    var name := e.name + [0];
    var start := at + layout.nameOffset;
    forall i | 0 <= i < |name| {
      buf[start + i] := name[i];
    }
    assert buf[start..start + |name|] == name;
    assert forall i :: end <= i < buf.Length ==> buf[i] == before[i];
    assert buf[end..] == before[end..] && buf[..at] == before[..at];
  }

  /** `k` entries are listed: their records take `count` bytes, the rest of the buffer
      is as it was (`s`), and what is left to list fits what is left of the buffer. */
  ghost predicate Listing(s: seq<byte>, now: seq<byte>, dir: seq<Slot>, pos: nat, layout: Layout, k: nat, count: nat) {
    && (k == 0 || pos + k <= |dir|)
    && (forall i :: pos <= i < pos + k ==> dir[i].Has?)
    && count == Size(dir, pos, layout, k) && count <= |now| && |now| == |s| && now[count..] == s[count..]
    && Lists(now, dir, pos, layout, k)
    && var (n, ok) := Scan(dir, pos + k, layout, |s| - count); Scan(dir, pos, layout, |s|) == (k + n, ok)
  }

  lemma ListingStep(s: seq<byte>, now: seq<byte>, now': seq<byte>, dir: seq<Slot>, pos: nat, layout: Layout, k: nat,
                    count: nat)
    requires layout.Valid() && Listing(s, now, dir, pos, layout, k, count) && pos + k < |dir| && dir[pos + k].Has?
    requires var e := dir[pos + k].entry;
      var end := count + layout.size(e);
      && end <= |now| && |now'| == |now| && now'[..count] == now[..count] && now'[end..] == now[end..]
      && Holds(now', count, layout, e, pos + k)
    ensures Listing(s, now', dir, pos, layout, k + 1, count + layout.size(dir[pos + k].entry))
  {
    OneMoreRecord(now, now', dir, pos, layout, k);
    var size := layout.size(dir[pos + k].entry);
    assert now'[count + size..] == now[count..][size..] == s[count + size..];
  }

  /** Puts the next entry's record behind those already listed. */
  method PutNext(buf: array<byte>, at: nat, layout: Layout, e: Entry, index: nat,
                 ghost s: seq<byte>, dir: seq<Slot>, ghost pos: nat, ghost k: nat)
    requires layout.Valid() && Listing(s, buf[..], dir, pos, layout, k, at)
    requires index == pos + k < |dir| && dir[index] == Has(e) && at + layout.size(e) <= buf.Length
    modifies buf
    ensures Listing(s, buf[..], dir, pos, layout, k + 1, at + layout.size(e))
  {
    ghost var before := buf[..];
    PutRecord(buf, at, layout, e, index);
    assert buf[..][..at] == before[..at];
    assert buf[..][at + layout.size(e)..] == before[at + layout.size(e)..];
    ListingStep(s, before, buf[..], dir, pos, layout, k, at);
  }

  /** Lists entries from the file's position on, as many as fit, and moves the position
      past them. An entry that cannot be read sets the position back to the start. */
  method List(meta: KMeta, dir: seq<Slot>, layout: Layout, buf: array<byte>) returns (r: Result)
    requires layout.Valid() && |dir| < USIZE_RANGE
    modifies meta`pos, buf
    ensures var pos := old(meta.pos);
      var (k, ok) := Scan(dir, pos, layout, buf.Length);
      if !ok then r == Unreadable && meta.pos == 0
      else
        && r == Count(Size(dir, pos, layout, k)) && r.n <= buf.Length && meta.pos == pos + k
        && Lists(buf[..], dir, pos, layout, k)
        && buf[r.n..] == old(buf[r.n..])
  {
    ghost var pos: nat, s := meta.pos, buf[..];
    ghost var k := 0;
    var count: nat := 0;
    while true
      invariant meta.pos == pos + k && Listing(s, buf[..], dir, pos, layout, k, count)
      decreases |dir| - meta.pos
    {
      if meta.pos >= |dir| {
        break;
      }
      match dir[meta.pos] {
        case Broken =>
          meta.pos := 0;
          return Unreadable;
        case Has(d) =>
          if count + layout.size(d) > buf.Length {
            break;
          }
          PutNext(buf, count, layout, d, meta.pos, s, dir, pos, k);
          count := count + layout.size(d);
      }
      meta.pos := meta.pos + 1;
      k := k + 1;
    }
    r := Count(count);
  }

  // ---------------------------------------------------------------- reading to the end

  /** The entries that successive reads list, one buffer size after another. */
  ghost function Listed(dir: seq<Slot>, pos: nat, layout: Layout, rooms: seq<nat>): seq<Entry>
    decreases |rooms|
  {
    if rooms == [] then []
    else
      var (k, ok) := Scan(dir, pos, layout, rooms[0]);
      if ok then Entries(dir, pos, k) + Listed(dir, pos + k, layout, rooms[1..])
      else Listed(dir, 0, layout, rooms[1..])
  }

  /** The `k` entries from `pos` on. */
  ghost function Entries(dir: seq<Slot>, pos: nat, k: nat): (r: seq<Entry>)
    requires k == 0 || pos + k <= |dir|
    requires forall i :: pos <= i < pos + k ==> dir[i].Has?
    ensures |r| == k
  {
    seq(k, i requires 0 <= i < k => dir[pos + i].entry)
  }

  lemma EntriesConcat(dir: seq<Slot>, pos: nat, k: nat, n: nat)
    requires k + n == 0 || pos + k + n <= |dir|
    requires forall i :: pos <= i < pos + k + n ==> dir[i].Has?
    ensures Entries(dir, pos, k) + Entries(dir, pos + k, n) == Entries(dir, pos, k + n)
  {
  }

  /** Each buffer fits at least the record that is next when its turn comes. */
  ghost predicate FitsNext(dir: seq<Slot>, pos: nat, layout: Layout, rooms: seq<nat>)
    decreases |rooms|
  {
    rooms == [] || (
      && (pos < |dir| && dir[pos].Has? ==> layout.size(dir[pos].entry) <= rooms[0])
      && FitsNext(dir, pos + Scan(dir, pos, layout, rooms[0]).0, layout, rooms[1..]))
  }

  predicate Healthy(dir: seq<Slot>) {
    forall i :: 0 <= i < |dir| ==> dir[i].Has?
  }

  lemma {:induction false} ScanHealthy(dir: seq<Slot>, pos: nat, layout: Layout, room: int)
    requires Healthy(dir)
    ensures Scan(dir, pos, layout, room).1
    ensures Scan(dir, pos, layout, room).0 == 0 <==> pos >= |dir| || layout.size(dir[pos].entry) > room
    decreases |dir| - pos
  {
    if pos < |dir| && layout.size(dir[pos].entry) <= room {
      ScanHealthy(dir, pos + 1, layout, room - layout.size(dir[pos].entry));
    }
  }

  /** Successive reads list entries in order, none twice and none left out, and as long as
      each has room for the next record every read makes progress. */
  lemma {:induction false} EveryEntryOnce(dir: seq<Slot>, pos: nat, layout: Layout, rooms: seq<nat>)
    requires Healthy(dir) && pos <= |dir|
    ensures |Listed(dir, pos, layout, rooms)| <= |dir| - pos
    ensures Listed(dir, pos, layout, rooms) == Entries(dir, pos, |Listed(dir, pos, layout, rooms)|)
    ensures FitsNext(dir, pos, layout, rooms) ==>
      Min(|rooms|, |dir| - pos) <= |Listed(dir, pos, layout, rooms)|
    decreases |rooms|
  {
    if rooms != [] {
      ScanHealthy(dir, pos, layout, rooms[0]);
      var k := Scan(dir, pos, layout, rooms[0]).0;
      EveryEntryOnce(dir, pos + k, layout, rooms[1..]);
      EntriesConcat(dir, pos, k, |Listed(dir, pos + k, layout, rooms[1..])|);
    }
  }

  /** With at least as many reads as there are entries, the list is the whole directory. */
  lemma WholeDirectory(dir: seq<Slot>, layout: Layout, rooms: seq<nat>)
    requires Healthy(dir) && FitsNext(dir, 0, layout, rooms) && |rooms| >= |dir|
    ensures Listed(dir, 0, layout, rooms) == Entries(dir, 0, |dir|)
  {
    EveryEntryOnce(dir, 0, layout, rooms);
  }

  /** How many entries from `pos` on come before the first whose record alone is larger
      than the buffer. */
  ghost function Reach(dir: seq<Slot>, pos: nat, layout: Layout, room: nat): (r: nat)
    requires Healthy(dir) && pos <= |dir|
    ensures pos + r <= |dir|
    ensures forall i :: pos <= i < pos + r ==> layout.size(dir[i].entry) <= room
    ensures pos + r < |dir| ==> layout.size(dir[pos + r].entry) > room
    decreases |dir| - pos
  {
    if pos == |dir| || layout.size(dir[pos].entry) > room then 0 else 1 + Reach(dir, pos + 1, layout, room)
  }

  /** A read never lists past such an entry. */
  lemma {:induction false} ReachAfterScan(dir: seq<Slot>, pos: nat, layout: Layout, left: int, room: nat)
    requires Healthy(dir) && pos <= |dir| && left <= room
    ensures Reach(dir, pos, layout, room) ==
      Scan(dir, pos, layout, left).0 + Reach(dir, pos + Scan(dir, pos, layout, left).0, layout, room)
    decreases |dir| - pos
  {
    if pos < |dir| && layout.size(dir[pos].entry) <= left {
      ReachAfterScan(dir, pos + 1, layout, left - layout.size(dir[pos].entry), room);
    }
  }

  /** A caller who reads again and again into the same buffer gets stuck at the first
      entry whose record is larger than the buffer. */
  lemma StuckAtLargeEntry(dir: seq<Slot>, pos: nat, layout: Layout, room: nat, rooms: seq<nat>)
    requires Healthy(dir) && pos <= |dir| && |rooms| >= Reach(dir, pos, layout, room)
    requires forall i :: 0 <= i < |rooms| ==> rooms[i] == room
    ensures Listed(dir, pos, layout, rooms) == Entries(dir, pos, Reach(dir, pos, layout, room))
  {
    ListedCount(dir, pos, layout, room, rooms);
    EveryEntryOnce(dir, pos, layout, rooms);
  }

  lemma {:induction false} ListedCount(dir: seq<Slot>, pos: nat, layout: Layout, room: nat, rooms: seq<nat>)
    requires Healthy(dir) && pos <= |dir| && |rooms| >= Reach(dir, pos, layout, room)
    requires forall i :: 0 <= i < |rooms| ==> rooms[i] == room
    ensures |Listed(dir, pos, layout, rooms)| == Reach(dir, pos, layout, room)
    decreases |rooms|
  {
    if rooms != [] {
      var k := Scan(dir, pos, layout, room).0;
      assert rooms[0] == room;
      MoreIsListed(dir, pos, layout, room);
      assert |Listed(dir, pos, layout, rooms)| == k + |Listed(dir, pos + k, layout, rooms[1..])|;
      ListedCount(dir, pos + k, layout, room, rooms[1..]);
    }
  }

  lemma MoreIsListed(dir: seq<Slot>, pos: nat, layout: Layout, room: nat)
    requires Healthy(dir) && pos <= |dir|
    ensures var (k, ok) := Scan(dir, pos, layout, room);
      ok && pos + k <= |dir| && Reach(dir, pos, layout, room) == k + Reach(dir, pos + k, layout, room)
    ensures Scan(dir, pos, layout, room).0 == 0 <==> Reach(dir, pos, layout, room) == 0
  {
    ScanHealthy(dir, pos, layout, room);
    ReachAfterScan(dir, pos, layout, room, room);
  }

  /** The read that is stuck there lists nothing and reports no error, which is also how
      the end of the directory looks. */
  lemma NothingAtReach(dir: seq<Slot>, pos: nat, layout: Layout, room: nat)
    requires Healthy(dir) && pos <= |dir|
    ensures Scan(dir, pos + Reach(dir, pos, layout, room), layout, room) == (0, true)
  {
    ScanHealthy(dir, pos + Reach(dir, pos, layout, room), layout, room);
  }

  /** So such a caller sees the whole directory exactly when every record fits the buffer. */
  lemma WholeDirectoryIff(dir: seq<Slot>, layout: Layout, room: nat, rooms: seq<nat>)
    requires Healthy(dir) && |rooms| >= |dir| && forall i :: 0 <= i < |rooms| ==> rooms[i] == room
    ensures Listed(dir, 0, layout, rooms) == Entries(dir, 0, |dir|)
       <==> forall i :: 0 <= i < |dir| ==> layout.size(dir[i].entry) <= room
  {
    StuckAtLargeEntry(dir, 0, layout, room, rooms);
    assert |Listed(dir, 0, layout, rooms)| == Reach(dir, 0, layout, room);
  }
}
