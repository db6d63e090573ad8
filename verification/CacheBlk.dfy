/** The write-back page cache of drivers/cache_blk, proved to look like one flat
    array of bytes.

    The eviction victim is any cached page: the LRU order is not modelled, so what
    is proved holds for every replacement policy. */
module CacheBlk {
  import opened Bytes
  import opened Disk

  /** The bytes of a page held as eight blocks. */
  ghost function PageBytes(slices: seq<seq<byte>>): (r: seq<byte>)
    requires |slices| == BLOCKS_PER_FRAME
    requires forall b :: 0 <= b < |slices| ==> |slices[b]| == BLOCK_SIZE
    ensures |r| == FRAME_SIZE
  {
    seq(FRAME_SIZE, i requires 0 <= i < FRAME_SIZE => slices[i / BLOCK_SIZE][i % BLOCK_SIZE])
  }

  class PageCache {
    var slices: seq<seq<byte>>

    /** The page this object was loaded for. */
    ghost const home: nat

    ghost predicate Valid()
      reads this
    {
      && |slices| == BLOCKS_PER_FRAME
      && forall b :: 0 <= b < |slices| ==> |slices[b]| == BLOCK_SIZE
    }

    ghost function Content(): (r: seq<byte>)
      reads this
      requires Valid()
      ensures |r| == FRAME_SIZE
    {
      PageBytes(slices)
    }

    constructor (loaded: seq<seq<byte>>, ghost pageId: nat)
      ensures slices == loaded && home == pageId
    {
      slices := loaded;
      home := pageId;
    }

    /** Copies the page's bytes from `offset` on into `buf[lo..hi]`. */
    method CopyTo(offset: nat, buf: array<byte>, lo: nat, hi: nat)
      requires Valid() && lo <= hi <= buf.Length && offset + (hi - lo) <= FRAME_SIZE
      modifies buf
      ensures buf[..] == Splice(old(buf[..]), lo, Content()[offset..offset + (hi - lo)])
    {
      var len := hi - lo;
      var count := 0;
      var startOffset := offset % BLOCK_SIZE;
      var index := offset / BLOCK_SIZE;
      while count < len
        invariant 0 <= count <= len && 0 <= startOffset < BLOCK_SIZE
        invariant count < len ==> index * BLOCK_SIZE + startOffset == offset + count
        invariant forall k :: 0 <= k < buf.Length && !(lo <= k < lo + count) ==> buf[k] == old(buf[k])
        invariant forall k :: lo <= k < lo + count ==> buf[k] == Content()[offset + (k - lo)]
      {
        var copyLen := Min(BLOCK_SIZE - startOffset, len - count);
        forall k | lo + count <= k < lo + count + copyLen {
          buf[k] := slices[index][startOffset + (k - lo - count)];
        }
        count := count + copyLen;
        startOffset := 0;
        index := index + 1;
      }
    }

    /** Overwrites the page's bytes from `offset` on with `data`. */
    method CopyFrom(offset: nat, data: seq<byte>)
      requires Valid() && offset + |data| <= FRAME_SIZE
      modifies this
      ensures Valid() && Content() == Splice(old(Content()), offset, data)
    {
      var len := |data|;
      var count := 0;
      var startOffset := offset % BLOCK_SIZE;
      var index := offset / BLOCK_SIZE;
      while count < len
        invariant Valid()
        invariant 0 <= count <= len && 0 <= startOffset < BLOCK_SIZE
        invariant count < len ==> index * BLOCK_SIZE + startOffset == offset + count
        invariant forall k :: 0 <= k < FRAME_SIZE ==>
                    Content()[k] == (if offset <= k < offset + count then data[k - offset] else old(Content())[k])
      {
        var copyLen := Min(BLOCK_SIZE - startOffset, len - count);
        ghost var before := Content();
        slices := slices[index := Splice(slices[index], startOffset, data[count..count + copyLen])];
        forall k | 0 <= k < FRAME_SIZE
          ensures Content()[k] == if offset + count <= k < offset + count + copyLen then data[k - offset] else before[k]
        {
          assert k / BLOCK_SIZE == index <==> index * BLOCK_SIZE <= k < index * BLOCK_SIZE + BLOCK_SIZE;
        }
        count := count + copyLen;
        startOffset := 0;
        index := index + 1;
      }
    }
  }

  /** Block `k` of page `p` of a flat disk. */
  ghost function BlockOf(disk: seq<byte>, p: nat, k: nat): (r: seq<byte>)
    requires k < BLOCKS_PER_FRAME && (p + 1) * FRAME_SIZE <= |disk|
  {
    disk[p * FRAME_SIZE + k * BLOCK_SIZE..p * FRAME_SIZE + (k + 1) * BLOCK_SIZE]
  }

  lemma BlockByte(disk: seq<byte>, p: nat, k: nat, j: nat)
    requires k < BLOCKS_PER_FRAME && j < BLOCK_SIZE && (p + 1) * FRAME_SIZE <= |disk|
    ensures BlockOf(disk, p, k)[j] == disk[p * FRAME_SIZE + (k * BLOCK_SIZE + j)]
  {
  }

  class GenericBlockDevice {
    var cache: map<nat, PageCache>
    const maxCacheFrames: nat
    const blk: BlockDevice

    /** The number of pages that lie wholly on the device. */
    ghost const pages: nat

    /** The flat disk this device must look like. */
    ghost var disk: seq<byte>
    ghost var Repr: set<object>

    /** What a client sees as block `k` of page `p`: the cached copy if the page is
        cached, else the device's. */
    ghost function ViewBlock(p: nat, k: nat): seq<byte>
      requires p < pages && k < BLOCKS_PER_FRAME && blk.Valid() && pages * BLOCKS_PER_FRAME <= blk.capacity
      requires p in cache ==> cache[p].Valid()
      reads this, blk, if p in cache then {cache[p]} else {}
    {
      if p in cache then cache[p].slices[k] else blk.blocks[p * BLOCKS_PER_FRAME + k]
    }

    /** The objects are the device's own, and the cache is within its bounds. */
    ghost predicate Shape()
      reads this, Repr
      ensures Shape() ==> this in Repr
    {
      && this in Repr && blk in Repr && (forall p :: p in cache ==> cache[p] in Repr)
      && blk.Valid() && pages * BLOCKS_PER_FRAME <= blk.capacity
      && 1 <= maxCacheFrames && |cache| <= maxCacheFrames
      && (forall p :: p in cache ==> p < pages && cache[p].Valid() && cache[p].home == p)
    }

    ghost predicate Valid()
      reads this, Repr
      ensures Valid() ==> this in Repr
    {
      && Shape()
      && |disk| == pages * FRAME_SIZE
      && forall p, k :: 0 <= p < pages && 0 <= k < BLOCKS_PER_FRAME ==> ViewBlock(p, k) == BlockOf(disk, p, k)
    }

    constructor (maxFrames: nat, device: BlockDevice)
      requires maxFrames > 0 && device.Valid()
      ensures Valid() && blk == device && pages == device.capacity / BLOCKS_PER_FRAME && maxCacheFrames == maxFrames
      ensures fresh(Repr - {device})
      ensures disk == Flatten(device.blocks)[..pages * FRAME_SIZE]
    {

      cache := map[];
      maxCacheFrames := maxFrames;
      blk := device;
      Repr := {this, device};
      pages := device.capacity / BLOCKS_PER_FRAME;
      ghost var content := device.blocks;
      disk := Flatten(content)[..device.capacity / BLOCKS_PER_FRAME * FRAME_SIZE];
      new;
      forall p, k | 0 <= p < pages && 0 <= k < BLOCKS_PER_FRAME
        ensures ViewBlock(p, k) == BlockOf(disk, p, k)
      {
        forall j | 0 <= j < BLOCK_SIZE
          ensures BlockOf(disk, p, k)[j] == content[p * BLOCKS_PER_FRAME + k][j]
        {
          assert disk[p * FRAME_SIZE + k * BLOCK_SIZE + j] == content[p * BLOCKS_PER_FRAME + k][j];
        }
      }
    }

    /** The eight device blocks of page `pageId`. */
    method ReadPage(pageId: nat) returns (loaded: seq<seq<byte>>)
      requires blk.Valid() && pages * BLOCKS_PER_FRAME <= blk.capacity && pageId < pages
      ensures |loaded| == BLOCKS_PER_FRAME
      ensures forall k :: 0 <= k < |loaded| ==> loaded[k] == blk.blocks[pageId * BLOCKS_PER_FRAME + k]
    {
      var startBlock := pageId * FRAME_SIZE / BLOCK_SIZE;
      var endBlock := startBlock + FRAME_SIZE / BLOCK_SIZE;
      loaded := [];
      for i := startBlock to endBlock
        invariant |loaded| == i - startBlock
        invariant forall k :: 0 <= k < |loaded| ==> loaded[k] == blk.blocks[startBlock + k]
      {
        var slice := blk.ReadBlock(i % U32_RANGE);
        loaded := loaded + [slice];
      }
    }

    /** Makes page `pageId` cached, writing back whichever page has to leave, and
        changes nothing a client can see. */
    method Check(pageId: nat)
      requires Valid() && pageId < pages
      modifies Repr
      ensures Valid() && fresh(Repr - old(Repr))
      ensures pageId in cache
      ensures disk == old(disk)
    {
      if pageId !in cache {
        var loaded := ReadPage(pageId);
        var page := new PageCache(loaded, pageId);
        var id, oldCache := Push(pageId, page);
        if oldCache != null {
          Settle(id, oldCache);
        }
      }
    }

    /** Writes back the page that left, which puts the device's own copy of it right. */
    method Settle(id: nat, oldCache: PageCache)
      requires Shape() && |disk| == pages * FRAME_SIZE
      requires forall p, k :: 0 <= p < pages && p != id && 0 <= k < BLOCKS_PER_FRAME ==>
                 ViewBlock(p, k) == BlockOf(disk, p, k)
      requires id < pages && id !in cache && oldCache.Valid()
      requires forall k :: 0 <= k < BLOCKS_PER_FRAME ==> oldCache.slices[k] == BlockOf(disk, id, k)
      modifies blk`blocks
      ensures Valid()
    {
      WriteBack(id, oldCache);
      forall p, k | 0 <= p < pages && 0 <= k < BLOCKS_PER_FRAME
        ensures ViewBlock(p, k) == BlockOf(disk, p, k)
      {
        if p != id {
          assert old(ViewBlock(p, k)) == BlockOf(disk, p, k);
        }
      }
    }

    /** Enters a page that is not cached. When the cache is full another page, any
        one, is taken out and returned. */
    method Push(pageId: nat, page: PageCache) returns (id: nat, oldCache: PageCache?)
      requires Valid() && pageId < pages && pageId !in cache
      requires page !in Repr && page.Valid() && page.home == pageId
      requires forall k :: 0 <= k < BLOCKS_PER_FRAME ==> page.slices[k] == ViewBlock(pageId, k)
      modifies this`cache, this`Repr
      ensures Shape() && Repr == old(Repr) + {page} && pageId in cache
      ensures oldCache == null ==> Valid()
      ensures oldCache != null ==>
        && id != pageId && id < pages && id !in cache && oldCache.Valid()
        && (forall k :: 0 <= k < BLOCKS_PER_FRAME ==> oldCache.slices[k] == BlockOf(disk, id, k))
        && forall p, k :: 0 <= p < pages && p != id && 0 <= k < BLOCKS_PER_FRAME ==>
             ViewBlock(p, k) == BlockOf(disk, p, k)
    {
      forall p, k | 0 <= p < pages && 0 <= k < BLOCKS_PER_FRAME
        ensures old(ViewBlock(p, k)) == BlockOf(disk, p, k)
      {}
      Repr := Repr + {page};
      if |cache| < maxCacheFrames {
        id, oldCache := 0, null;
        cache := cache[pageId := page];
      } else {
        id :| id in cache;
        oldCache := cache[id];
        assert |cache - {id}| == |cache| - 1 by { assert (cache - {id}).Keys == cache.Keys - {id}; }
        cache := (cache - {id})[pageId := page];
      }
    }

    /** Writes an evicted page's eight blocks to their place on the device. */
    method WriteBack(id: nat, page: PageCache)
      requires blk.Valid() && pages * BLOCKS_PER_FRAME <= blk.capacity && page.Valid() && id < pages
      modifies blk`blocks
      ensures blk.Valid()
      ensures forall b :: 0 <= b < blk.capacity ==>
        blk.blocks[b] == (if id * BLOCKS_PER_FRAME <= b < (id + 1) * BLOCKS_PER_FRAME
                          then page.slices[b - id * BLOCKS_PER_FRAME] else old(blk.blocks[b]))
    {
      var startBlock := id * FRAME_SIZE / BLOCK_SIZE;
      var endBlock := startBlock + FRAME_SIZE / BLOCK_SIZE;
      for i := startBlock to endBlock
        invariant blk.Valid()
        invariant forall b :: 0 <= b < blk.capacity ==>
          blk.blocks[b] == (if startBlock <= b < i then page.slices[b - startBlock] else old(blk.blocks[b]))
      {
        blk.WriteBlock(i % U32_RANGE, page.slices[i - startBlock]);
      }
    }

    /** A cached page holds what a client should see of it. */
    lemma CachedPage(p: nat)
      requires Valid() && p in cache
      ensures HoldsPage(cache[p].slices, disk, p)
    {
      forall k | 0 <= k < BLOCKS_PER_FRAME
        ensures cache[p].slices[k] == BlockOf(disk, p, k)
      {
        assert ViewBlock(p, k) == BlockOf(disk, p, k);
      }
    }

    /** One turn of the read loop: the bytes that page `pageId` contributes. */
    method ReadFromPage(pageId: nat, offset: nat, buf: array<byte>, lo: nat, hi: nat)
      requires Valid() && pageId < pages && buf !in Repr
      requires lo <= hi <= buf.Length && offset + (hi - lo) <= FRAME_SIZE
      modifies Repr, buf
      ensures Valid() && fresh(Repr - old(Repr)) && disk == old(disk)
      ensures buf[..] == Splice(old(buf[..]), lo,
        disk[pageId * FRAME_SIZE + offset..pageId * FRAME_SIZE + offset + (hi - lo)])
    {
      Check(pageId);
      var page := cache[pageId];
      CachedPage(pageId);
      PageIsDisk(page.slices, disk, pageId, offset, hi - lo);
      page.CopyTo(offset, buf, lo, hi);
    }

    /** Reads `buf.Length` bytes of the flat disk, starting at `from`. */
    method Read(from: nat, buf: array<byte>)
      requires Valid() && buf !in Repr
      requires buf.Length == 0 || from + buf.Length <= |disk|
      modifies Repr, buf
      ensures Valid() && fresh(Repr - old(Repr))
      ensures disk == old(disk)
      ensures buf.Length > 0 ==> buf[..] == disk[from..from + buf.Length]
    {
      var pageId := from / FRAME_SIZE;
      var offset := from % FRAME_SIZE;
      var len := buf.Length;
      var count := 0;
      while count < len
        invariant Valid() && fresh(Repr - old(Repr)) && buf !in Repr
        invariant disk == old(disk)
        invariant 0 <= count <= len && 0 <= offset < FRAME_SIZE
        invariant count < len ==> pageId * FRAME_SIZE + offset == from + count
        invariant forall k :: 0 <= k < count ==> buf[..][k] == disk[from + k]
      {
        var copyLen := Min(FRAME_SIZE - offset, len - count);
        ReadFromPage(pageId, offset, buf, count, count + copyLen);
        count := count + copyLen;
        offset := 0;
        pageId := pageId + 1;
      }
    }

    /** One turn of the write loop: the bytes that land on page `pageId`. */
    method WriteToPage(pageId: nat, offset: nat, data: seq<byte>)
      requires Valid() && pageId < pages && offset + |data| <= FRAME_SIZE
      modifies Repr
      ensures Valid() && fresh(Repr - old(Repr))
      ensures disk == Splice(old(disk), pageId * FRAME_SIZE + offset, data)
    {
      Check(pageId);
      var page := cache[pageId];
      ghost var slices, flat := page.slices, disk;
      CachedPage(pageId);
      label fetched:
      page.CopyFrom(offset, data);
      disk := Splice(disk, pageId * FRAME_SIZE + offset, data);
      PageWritten(slices, page.slices, flat, pageId, offset, data);
      OtherPagesKept(flat, pageId, offset, data);
      forall p, k | 0 <= p < pages && 0 <= k < BLOCKS_PER_FRAME
        ensures ViewBlock(p, k) == BlockOf(disk, p, k)
      {
        if p != pageId {
          assert old@fetched(ViewBlock(p, k)) == BlockOf(flat, p, k);
        }
      }
    }

    /** Writes `buf` to the flat disk at `from`, and changes no other byte of it. */
    method Write(from: nat, buf: seq<byte>) returns (n: nat)
      requires Valid()
      requires buf == [] || from + |buf| <= |disk|
      modifies Repr
      ensures Valid() && fresh(Repr - old(Repr))
      ensures n == |buf|
      ensures disk == Overwrite(old(disk), from, buf)
    {
      var pageId := from / FRAME_SIZE;
      var offset := from % FRAME_SIZE;
      var len := |buf|;
      var count := 0;
      ghost var flat := disk;
      while count < len
        invariant Valid() && fresh(Repr - old(Repr))
        invariant 0 <= count <= len && 0 <= offset < FRAME_SIZE
        invariant count < len ==> pageId * FRAME_SIZE + offset == from + count
        invariant Written(disk, flat, from, buf, count)
      {
        var copyLen := Min(FRAME_SIZE - offset, len - count);
        assert pageId * FRAME_SIZE + offset == from + count;
        ghost var before := disk;
        WriteToPage(pageId, offset, buf[count..count + copyLen]);
        WrittenMore(before, disk, flat, from, buf, count, count + copyLen);
        count := count + copyLen;
        offset := (offset + copyLen) % FRAME_SIZE;
        pageId := pageId + 1;
      }
      WrittenAll(disk, flat, from, buf);
      n := len;
    }
  }

  /** Serves a whole run of requests. The replies, and the disk that is left, are
      those of a plain array of bytes: neither the cache's size nor the choice of
      victims can be told from outside. */
  method Serve(dev: GenericBlockDevice, run: seq<Request>) returns (replies: seq<seq<byte>>)
    requires dev.Valid()
    requires AllInRange(run, |dev.disk|)
    modifies dev.Repr
    ensures dev.Valid() && fresh(dev.Repr - old(dev.Repr))
    ensures dev.disk == After(old(dev.disk), run)
    ensures replies == Replies(old(dev.disk), run)
    decreases |run|
  {
    replies := [];
    if run != [] {
      replies := ServeOne(dev, run[0]);
      var rest := Serve(dev, run[1..]);
      replies := replies + rest;
    }
  }

  method ServeOne(dev: GenericBlockDevice, req: Request) returns (reply: seq<seq<byte>>)
    requires dev.Valid() && req.InRange(|dev.disk|)
    modifies dev.Repr
    ensures dev.Valid() && fresh(dev.Repr - old(dev.Repr))
    ensures dev.disk == if req.Write? then Overwrite(old(dev.disk), req.at, req.data) else old(dev.disk)
    ensures reply == if req.Write? then [] else [if req.len == 0 then [] else dev.disk[req.from..req.from + req.len]]
  {
    match req {
      case Read(from, len) =>
        var buf := new byte[len];
        dev.Read(from, buf);
        reply := [buf[..]];
        assert buf[..] == if len == 0 then [] else dev.disk[from..from + len];
      case Write(at, data) =>
        var n := dev.Write(at, data);
        reply := [];
    }
  }

  /** `slices` are the blocks of page `p` of the flat disk. */
  ghost predicate HoldsPage(slices: seq<seq<byte>>, disk: seq<byte>, p: nat)
    requires (p + 1) * FRAME_SIZE <= |disk|
  {
    && |slices| == BLOCKS_PER_FRAME
    && forall k :: 0 <= k < BLOCKS_PER_FRAME ==> slices[k] == BlockOf(disk, p, k)
  }

  /** A stretch of a page's bytes is the same stretch of the flat disk. */
  lemma {:induction false} PageIsDisk(slices: seq<seq<byte>>, disk: seq<byte>, p: nat, offset: nat, len: nat)
    requires (p + 1) * FRAME_SIZE <= |disk| && HoldsPage(slices, disk, p)
    requires offset + len <= FRAME_SIZE
    ensures PageBytes(slices)[offset..offset + len] == disk[p * FRAME_SIZE + offset..p * FRAME_SIZE + offset + len]
  {
    forall i | offset <= i < offset + len
      ensures PageBytes(slices)[i] == disk[p * FRAME_SIZE + i]
    {
      assert slices[i / BLOCK_SIZE] == BlockOf(disk, p, i / BLOCK_SIZE);
    }
  }

  /** Splicing into a page's bytes is splicing into the disk that page is part of. */
  lemma {:induction false} PageWritten(before: seq<seq<byte>>, after: seq<seq<byte>>, disk: seq<byte>,
                                       p: nat, offset: nat, data: seq<byte>)
    requires (p + 1) * FRAME_SIZE <= |disk| && HoldsPage(before, disk, p)
    requires offset + |data| <= FRAME_SIZE
    requires |after| == BLOCKS_PER_FRAME && forall b :: 0 <= b < |after| ==> |after[b]| == BLOCK_SIZE
    requires PageBytes(after) == Splice(PageBytes(before), offset, data)
    ensures HoldsPage(after, Splice(disk, p * FRAME_SIZE + offset, data), p)
  {
    var disk' := Splice(disk, p * FRAME_SIZE + offset, data);
    forall k, j | 0 <= k < BLOCKS_PER_FRAME && 0 <= j < BLOCK_SIZE
      ensures after[k][j] == BlockOf(disk', p, k)[j]
    {
      var i := k * BLOCK_SIZE + j;
      assert after[k][j] == PageBytes(after)[i];
      assert before[k][j] == PageBytes(before)[i];
      BlockByte(disk', p, k, j);
      assert before[k] == BlockOf(disk, p, k);
      if offset <= i < offset + |data| {
        assert disk'[p * FRAME_SIZE + i] == data[i - offset];
      } else {
        assert disk'[p * FRAME_SIZE + i] == disk[p * FRAME_SIZE + i];
      }
    }
  }

  /** A splice inside one page leaves the blocks of every other page alone. */
  lemma OtherPagesKept(disk: seq<byte>, page: nat, offset: nat, data: seq<byte>)
    requires offset + |data| <= FRAME_SIZE && (page + 1) * FRAME_SIZE <= |disk|
    ensures forall p, k :: 0 <= p && p != page && (p + 1) * FRAME_SIZE <= |disk| && 0 <= k < BLOCKS_PER_FRAME ==>
      BlockOf(Splice(disk, page * FRAME_SIZE + offset, data), p, k) == BlockOf(disk, p, k)
  {
  }
}
