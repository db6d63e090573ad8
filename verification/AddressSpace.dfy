/** A stand-in for the page-table crate: an address space is a set of mapped pages,
    each with its permissions, and the bytes in them. */
module AddressSpace {
  import opened Bytes

  datatype Perm = READ | WRITE | EXECUTE | USER

  /** The address of the page that holds byte `a`. */
  function PageOf(a: nat): (p: nat)
    ensures p <= a < p + FRAME_SIZE && p % FRAME_SIZE == 0
  {
    a - a % FRAME_SIZE
  }

  /** `a` rounded up to a page; past the top of the address space it wraps to zero. */
  function AlignUp4K(a: u64): (r: u64)
    ensures r % FRAME_SIZE == 0
    ensures a <= USIZE_RANGE - FRAME_SIZE ==> a <= r < a + FRAME_SIZE
    ensures a > USIZE_RANGE - FRAME_SIZE ==> r == 0
  {
    var x := (a + (FRAME_SIZE - 1)) % USIZE_RANGE;
    x - x % FRAME_SIZE
  }

  /** Pages start where pages can, and memory is the bytes of the mapped pages. */
  ghost predicate Backed(perms: map<nat, set<Perm>>, mem: map<nat, byte>) {
    && (forall p :: p in perms ==> p % FRAME_SIZE == 0)
    && (forall a: nat {:trigger a in mem} :: a in mem <==> PageOf(a) in perms)
  }

  class VmSpace {
    /** Permissions by page address. */
    var perms: map<nat, set<Perm>>
    /** Memory by byte address. */
    var mem: map<nat, byte>

    ghost predicate Valid()
      reads this
    {
      Backed(perms, mem)
    }

    constructor ()
      ensures Valid() && perms == map[] && mem == map[]
    {
      perms := map[];
      mem := map[];
    }

    method Query(page: nat) returns (r: Option<set<Perm>>)
      ensures r == if page in perms then Some(perms[page]) else None
    {
      r := if page in perms then Some(perms[page]) else None;
    }

    method Protect(page: nat, perm: set<Perm>) returns (ok: bool)
      requires Valid()
      modifies this`perms
      ensures Valid() && ok == (page in old(perms))
      ensures perms == if ok then old(perms)[page := perm] else old(perms)
    {
      ok := page in perms;
      if ok {
        perms := perms[page := perm];
      }
    }

    /** Maps `frame`, one page of bytes, at `page`; refused where a page is mapped. */
    method MapPage(page: nat, perm: set<Perm>, frame: seq<byte>) returns (ok: bool)
      requires Valid() && page % FRAME_SIZE == 0 && |frame| == FRAME_SIZE
      modifies this
      ensures Valid() && ok == (page !in old(perms))
      ensures perms == if ok then old(perms)[page := perm] else old(perms)
      ensures mem == if ok then old(mem) + Frame(page, frame) else old(mem)
    {
      ok := page !in perms;
      if ok {
        perms := perms[page := perm];
        mem := mem + Frame(page, frame);
      }
    }

    /** Maps `frames` from `low` to `high`; refused, changing nothing, where any page of
        the area is mapped. */
    method MapArea(low: nat, high: nat, perm: set<Perm>, frames: seq<byte>) returns (ok: bool)
      requires Valid() && low % FRAME_SIZE == 0 && high % FRAME_SIZE == 0 && high == low + |frames|
      modifies this
      ensures Valid() && ok == Unmapped(old(perms), low, high)
      ensures perms == if ok then old(perms) + Area(low, high, perm) else old(perms)
      ensures forall a :: a in old(mem) ==> a in mem && mem[a] == old(mem)[a]
    {
      ok := Unmapped(perms, low, high);
      if ok {
        AreaBacked(perms, mem, low, high, perm, AreaBytes(low, frames));
        perms := perms + Area(low, high, perm);
        mem := mem + AreaBytes(low, frames);
      }
    }

    /** Writes `data` at `addr`; fails, changing nothing, where a page is missing. */
    method WriteBytes(addr: nat, data: seq<byte>) returns (ok: bool)
      modifies this`mem
      ensures ok == Mapped(old(mem), addr, |data|)
      ensures mem == if ok then Stored(old(mem), addr, data) else old(mem)
    {
      ok := Mapped(mem, addr, |data|);
      if ok {
        mem := Stored(mem, addr, data);
      }
    }
  }

  /** No page from `low` to `high` is mapped. */
  predicate Unmapped(perms: map<nat, set<Perm>>, low: nat, high: nat) {
    forall p: nat :: low <= p < high ==> p !in perms
  }

  /** The pages from `low` to `high`. */
  function Area(low: nat, high: nat, perm: set<Perm>): map<nat, set<Perm>> {
    map p: nat | low <= p < high && p % FRAME_SIZE == 0 :: perm
  }

  /** The bytes of those pages, by address. */
  function AreaBytes(low: nat, frames: seq<byte>): (r: map<nat, byte>)
    requires low % FRAME_SIZE == 0 && |frames| % FRAME_SIZE == 0
    ensures forall a: nat {:trigger a in r} :: a in r <==> low <= PageOf(a) < low + |frames|
  {
    map a: nat | low <= a < low + |frames| && PageOf(a) >= low :: frames[a - low]
  }

  lemma AreaBacked(perms: map<nat, set<Perm>>, mem: map<nat, byte>, low: nat, high: nat, perm: set<Perm>,
                   bytes: map<nat, byte>)
    requires Backed(perms, mem) && Unmapped(perms, low, high)
    requires forall a: nat {:trigger a in bytes} :: a in bytes <==> low <= PageOf(a) < high
    ensures Backed(perms + Area(low, high, perm), mem + bytes)
    ensures forall a :: a in mem ==> a !in bytes
  {
  }

  /** The bytes of one page, by address. */
  function Frame(page: nat, frame: seq<byte>): (r: map<nat, byte>)
    requires page % FRAME_SIZE == 0 && |frame| == FRAME_SIZE
    ensures forall a: nat {:trigger a in r} :: a in r <==> PageOf(a) == page
  {
    map a: nat | page <= a < page + FRAME_SIZE && PageOf(a) == page :: frame[a - page]
  }

  /** Two addresses are on the same page just when the page starts agree. */
  lemma SamePage(a: nat, page: nat)
    requires page % FRAME_SIZE == 0
    ensures PageOf(a) == page <==> page <= a < page + FRAME_SIZE
  {
  }

  predicate Mapped(mem: map<nat, byte>, addr: nat, len: nat) {
    forall a: nat :: addr <= a < addr + len ==> a in mem
  }

  /** Memory with `data` stored from `addr` on. */
  function Stored(mem: map<nat, byte>, addr: nat, data: seq<byte>): (r: map<nat, byte>)
    ensures r.Keys == mem.Keys
    ensures forall a :: a in mem && !(addr <= a < addr + |data|) ==> r[a] == mem[a]
  {
    map a | a in mem :: if addr <= a < addr + |data| then data[a - addr] else mem[a]
  }

  /** `data` is what memory holds from `addr` on. */
  ghost predicate Holds(mem: map<nat, byte>, addr: nat, data: seq<byte>) {
    forall a: nat :: addr <= a < addr + |data| ==> a in mem && mem[a] == data[a - addr]
  }
}
