/** The table of open files across a swap of the file system layer (common/vfs/vfs,
    lib.rs and tree.rs). The table itself dies with the domain; which ids denote regular
    files, and the metadata of each, live on in the storage. */
module Vfs {
  import opened Bytes
  import opened KFiles

  // ---------------------------------------------------------------- storage keys

  function Digit(d: nat): char
    requires d < 10
  {
    "0123456789"[d]
  }

  function Decimal(n: nat): (r: string)
    ensures |r| > 0
  {
    if n < 10 then [Digit(n)] else Decimal(n / 10) + [Digit(n % 10)]
  }

  function Key(id: nat): string {
    "kfile_" + Decimal(id)
  }

  lemma {:induction false} DecimalInjective(m: nat, n: nat)
    requires Decimal(m) == Decimal(n)
    ensures m == n
  {
    var s, t := Decimal(m), Decimal(n);
    assert s[|s| - 1] == Digit(m % 10) && t[|t| - 1] == Digit(n % 10);
    if m >= 10 && n >= 10 {
      assert s[..|s| - 1] == Decimal(m / 10) && t[..|t| - 1] == Decimal(n / 10);
      DecimalInjective(m / 10, n / 10);
    }
  }

  /** Two files never share a record. */
  lemma KeyInjective(m: nat, n: nat)
    ensures Key(m) == Key(n) <==> m == n
  {
    if Key(m) == Key(n) {
      assert Key(m)[6..] == Decimal(m) && Key(n)[6..] == Decimal(n);
      DecimalInjective(m, n);
    }
  }

  // ---------------------------------------------------------------- the table as a value

  /** A regular file, by the inode its dentry leads to, or a file that exists in this
      domain only: a pipe end, a socket, an event counter. */
  datatype Handle = Regular(inode: Inode) | Special(file: nat)

  datatype World = World(files: map<u64, Handle>, shadow: set<u64>, records: map<string, Meta>, nextId: u64)

  /** Ids below this one belong to the root directory and the three standard streams. */
  const FIRST_ID: u64 := 4

  datatype Call =
    | Read(len: nat, answer: Answer)
    | Write(len: nat, answer: Answer)
    | Seek(how: SeekFrom, size: Answer)
    | SetFlags(flags: Flags)

  datatype Op =
    | Open(inode: Inode, size: u64, flags: Flags)
    | OpenSpecial(file: nat)
    | Close(id: u64)
    | Use(id: u64, call: Call)
    | Swap

  function Perform(meta: Meta, inode: Inode, call: Call): (Meta, Reply) {
    match call
    case Read(len, answer) => Transfer(meta, inode, len, meta.flags.rdonly || meta.flags.rdwr, answer)
    case Write(len, answer) => Transfer(meta, inode, len, meta.flags.wronly || meta.flags.rdwr, answer)
    case Seek(how, size) => SeekTo(meta, inode, how, size)
    case SetFlags(flags) => (meta.(flags := flags), FlagsSet)
  }

  /** Calls on one file, one after the other. */
  ghost function PerformAll(meta: Meta, inode: Inode, calls: seq<Call>): (r: (Meta, seq<Reply>))
    ensures |r.1| == |calls|
    decreases |calls|
  {
    if calls == [] then (meta, [])
    else
      var (meta1, reply) := Perform(meta, inode, calls[0]);
      var (meta2, replies) := PerformAll(meta1, inode, calls[1..]);
      (meta2, [reply] + replies)
  }

  /** The bytes that the file system says it transferred. */
  ghost function BytesMoved(replies: seq<Reply>): nat {
    if replies == [] then 0 else Took(replies[0]) + BytesMoved(replies[1..])
  }

  function Took(r: Reply): nat {
    if r.Asked? && r.answer.Done? then r.answer.n else 0
  }

  lemma OneCallMoves(meta: Meta, inode: Inode, call: Call)
    requires !call.Seek?
    ensures var (meta', r) := Perform(meta, inode, call);
      && meta'.pos == (meta.pos + Took(r)) % USIZE_RANGE
      && (r.Asked? ==> r.inode == inode && r.offset == meta.pos)
  {
  }

  /** Reads and writes move the position past what was transferred. */
  lemma {:induction false} PositionAfter(meta: Meta, inode: Inode, calls: seq<Call>)
    requires forall k :: 0 <= k < |calls| ==> !calls[k].Seek?
    ensures PerformAll(meta, inode, calls).0.pos ==
      (meta.pos + BytesMoved(PerformAll(meta, inode, calls).1)) % USIZE_RANGE
    decreases |calls|
  {
    if calls != [] {
      var (meta1, reply) := Perform(meta, inode, calls[0]);
      var rest := PerformAll(meta1, inode, calls[1..]).1;
      OneCallMoves(meta, inode, calls[0]);
      PositionAfter(meta1, inode, calls[1..]);
      assert PerformAll(meta, inode, calls).1[1..] == rest;
      WrapTwice(meta.pos, Took(reply), BytesMoved(rest));
    }
  }

  /** And each asks, at its own inode, for the bytes right after those transferred so
      far. */
  lemma {:induction false} CallsFollowOn(meta: Meta, inode: Inode, calls: seq<Call>, i: nat)
    requires i < |calls| && forall k :: 0 <= k < |calls| ==> !calls[k].Seek?
    ensures var replies := PerformAll(meta, inode, calls).1;
      replies[i].Asked? ==>
        replies[i].inode == inode && replies[i].offset == (meta.pos + BytesMoved(replies[..i])) % USIZE_RANGE
    decreases |calls|
  {
    var replies := PerformAll(meta, inode, calls).1;
    OneCallMoves(meta, inode, calls[0]);
    if i > 0 {
      var (meta1, reply) := Perform(meta, inode, calls[0]);
      var rest := PerformAll(meta1, inode, calls[1..]).1;
      CallsFollowOn(meta1, inode, calls[1..], i - 1);
      assert replies == [reply] + rest;
      MovedFirst(reply, rest, i);
      WrapTwice(meta.pos, Took(reply), BytesMoved(rest[..i - 1]));
    }
  }

  lemma MovedFirst(first: Reply, rest: seq<Reply>, i: nat)
    requires 0 < i <= |rest|
    ensures BytesMoved(([first] + rest)[..i]) == Took(first) + BytesMoved(rest[..i - 1])
  {
    var s := ([first] + rest)[..i];
    assert s[0] == first && s[1..] == rest[..i - 1];
  }

  lemma WrapTwice(a: nat, b: nat, c: nat)
    ensures ((a + b) % USIZE_RANGE + c) % USIZE_RANGE == (a + b + c) % USIZE_RANGE
  {
  }

  // ---------------------------------------------------------------- tasks that share a file

  /** A read or write takes the position under one lock and moves it under another. Tasks
      that share a file can come in between; what only holds one lock is one turn. */
  datatype Turn = Begin(who: nat) | Finish(who: nat, call: Call) | Whole(call: Call)

  /** A read or write that took the position `offset`. */
  function Resume(meta: Meta, offset: u64, inode: Inode, call: Call): (Meta, Reply) {
    var r := Perform(meta.(pos := offset), inode, call).1;
    (meta.(pos := (meta.pos + Took(r)) % USIZE_RANGE), r)
  }

  predicate Transfers(call: Call) {
    call.Read? || call.Write?
  }

  /** Turns of any tasks, one after the other; `taken` are the positions of the reads and
      writes under way. */
  ghost function TakeTurns(meta: Meta, taken: map<nat, u64>, inode: Inode, turns: seq<Turn>)
    : (Meta, map<nat, u64>, seq<Reply>)
    decreases |turns|
  {
    if turns == [] then (meta, taken, [])
    else match turns[0]
      case Begin(who) => TakeTurns(meta, taken[who := meta.pos], inode, turns[1..])
      case Finish(who, call) =>
        if who !in taken || !Transfers(call) then TakeTurns(meta, taken, inode, turns[1..])
        else
          var (meta1, r) := Resume(meta, taken[who], inode, call);
          Answered(r, TakeTurns(meta1, taken - {who}, inode, turns[1..]))
      case Whole(call) =>
        var (meta1, r) := Perform(meta, inode, call);
        Answered(r, TakeTurns(meta1, taken, inode, turns[1..]))
  }

  function Answered(r: Reply, rest: (Meta, map<nat, u64>, seq<Reply>)): (Meta, map<nat, u64>, seq<Reply>) {
    (rest.0, rest.1, [r] + rest.2)
  }

  predicate NoSeek(turns: seq<Turn>) {
    forall k :: 0 <= k < |turns| ==> !(turns[k].Whole? && turns[k].call.Seek?)
  }

  /** If no other turn comes in between, the two halves are the whole call. */
  lemma HalvesMakeCall(meta: Meta, inode: Inode, call: Call)
    requires Transfers(call)
    ensures Resume(meta, meta.pos, inode, call) == Perform(meta, inode, call)
  {
  }

  /** However the halves of reads and writes are mixed, the position moves by what was
      transferred, all in all. */
  lemma {:induction false} PositionAfterTurns(meta: Meta, taken: map<nat, u64>, inode: Inode, turns: seq<Turn>)
    requires NoSeek(turns)
    ensures var (meta', _, replies) := TakeTurns(meta, taken, inode, turns);
      meta'.pos == (meta.pos + BytesMoved(replies)) % USIZE_RANGE
    decreases |turns|
  {
    if turns != [] {
      var rest := turns[1..];
      match turns[0] {
        case Begin(who) => PositionAfterTurns(meta, taken[who := meta.pos], inode, rest);
        case Finish(who, call) =>
          if who !in taken || !Transfers(call) {
            PositionAfterTurns(meta, taken, inode, rest);
          } else {
            var (meta1, r) := Resume(meta, taken[who], inode, call);
            PositionAfterTurns(meta1, taken - {who}, inode, rest);
            MovedOnce(meta, r, meta1, TakeTurns(meta1, taken - {who}, inode, rest));
          }
        case Whole(call) =>
          var (meta1, r) := Perform(meta, inode, call);
          OneCallMoves(meta, inode, call);
          PositionAfterTurns(meta1, taken, inode, rest);
          MovedOnce(meta, r, meta1, TakeTurns(meta1, taken, inode, rest));
      }
    }
  }

  lemma MovedOnce(meta: Meta, r: Reply, meta1: Meta, rest: (Meta, map<nat, u64>, seq<Reply>))
    requires meta1.pos == (meta.pos + Took(r)) % USIZE_RANGE
    requires rest.0.pos == (meta1.pos + BytesMoved(rest.2)) % USIZE_RANGE
    ensures rest.0.pos == (meta.pos + BytesMoved(Answered(r, rest).2)) % USIZE_RANGE
  {
    assert Answered(r, rest).2[1..] == rest.2;
    WrapTwice(meta.pos, Took(r), BytesMoved(rest.2));
  }

  lemma {:induction false} TurnsConcat(meta: Meta, taken: map<nat, u64>, inode: Inode, a: seq<Turn>, b: seq<Turn>)
    ensures var (meta1, taken1, replies1) := TakeTurns(meta, taken, inode, a);
      var (meta2, taken2, replies2) := TakeTurns(meta1, taken1, inode, b);
      TakeTurns(meta, taken, inode, a + b) == (meta2, taken2, replies1 + replies2)
    decreases |a|
  {
    if a == [] {
      var replies := TakeTurns(meta, taken, inode, b).2;
      assert a + b == b && [] + replies == replies;
    } else {
      assert (a + b)[1..] == a[1..] + b;
      match a[0] {
        case Begin(who) => TurnsConcat(meta, taken[who := meta.pos], inode, a[1..], b);
        case Finish(who, call) =>
          if who !in taken || !Transfers(call) {
            TurnsConcat(meta, taken, inode, a[1..], b);
          } else {
            var (meta1, r) := Resume(meta, taken[who], inode, call);
            TurnsConcat(meta1, taken - {who}, inode, a[1..], b);
            AnsweredFirst(r, meta1, taken - {who}, inode, a[1..], b);
          }
        case Whole(call) =>
          var (meta1, r) := Perform(meta, inode, call);
          TurnsConcat(meta1, taken, inode, a[1..], b);
          AnsweredFirst(r, meta1, taken, inode, a[1..], b);
      }
    }
  }

  lemma AnsweredFirst(r: Reply, meta: Meta, taken: map<nat, u64>, inode: Inode, a: seq<Turn>, b: seq<Turn>)
    ensures var (meta1, taken1, replies1) := TakeTurns(meta, taken, inode, a);
      var replies2 := TakeTurns(meta1, taken1, inode, b).2;
      [r] + (replies1 + replies2) == [r] + replies1 + replies2
  {
  }

  predicate OfOthers(turns: seq<Turn>, who: nat) {
    forall k :: 0 <= k < |turns| ==> turns[k].Whole? || turns[k].who != who
  }

  lemma {:induction false} StaysTaken(meta: Meta, taken: map<nat, u64>, inode: Inode, turns: seq<Turn>, who: nat)
    requires who in taken && OfOthers(turns, who)
    ensures var taken' := TakeTurns(meta, taken, inode, turns).1; who in taken' && taken'[who] == taken[who]
    decreases |turns|
  {
    if turns != [] {
      match turns[0] {
        case Begin(other) => StaysTaken(meta, taken[other := meta.pos], inode, turns[1..], who);
        case Finish(other, call) =>
          if other !in taken || !Transfers(call) {
            StaysTaken(meta, taken, inode, turns[1..], who);
          } else {
            StaysTaken(Resume(meta, taken[other], inode, call).0, taken - {other}, inode, turns[1..], who);
          }
        case Whole(call) => StaysTaken(Perform(meta, inode, call).0, taken, inode, turns[1..], who);
      }
    }
  }

  /** A read or write with turns of other tasks between its halves asks for the bytes at the
      position where it began. Those are the bytes after all that were transferred by then
      exactly if nothing was in between, or as much as makes the position wrap around. */
  lemma {:induction false} FollowsOnIff(meta: Meta, taken: map<nat, u64>, inode: Inode, who: nat, between: seq<Turn>,
                                        call: Call)
    requires Transfers(call) && OfOthers(between, who) && NoSeek(between)
    ensures var (meta1, taken1, replies) := TakeTurns(meta, taken[who := meta.pos], inode, between);
      var r := Resume(meta1, meta.pos, inode, call).1;
      && TakeTurns(meta, taken, inode, [Begin(who)] + between + [Finish(who, call)]).2 == replies + [r]
      && (r.Asked? ==> r.inode == inode && r.offset == meta.pos &&
                       (r.offset == meta1.pos <==> BytesMoved(replies) % USIZE_RANGE == 0))
  {
    var (meta1, taken1, replies) := TakeTurns(meta, taken[who := meta.pos], inode, between);
    StaysTaken(meta, taken[who := meta.pos], inode, between, who);
    TurnsConcat(meta, taken[who := meta.pos], inode, between, [Finish(who, call)]);
    var all := [Begin(who)] + between + [Finish(who, call)];
    assert all[0] == Begin(who) && all[1..] == between + [Finish(who, call)];
    PositionAfterTurns(meta, taken[who := meta.pos], inode, between);
    SameAfter(meta.pos, BytesMoved(replies));
  }

  lemma SameAfter(a: u64, b: nat)
    ensures (a + b) % USIZE_RANGE == a <==> b % USIZE_RANGE == 0
  {
    WrapTwice(0, b, a);
  }

  /** So two tasks that read a shared file at once can both get the same bytes, and the
      position then moves past twice as many as either got. */
  lemma {:induction false} SameBytesTwice(meta: Meta, inode: Inode, a: nat, b: nat, len: nat, n: u64)
    requires a != b && len > 0 && (meta.flags.rdonly || meta.flags.rdwr)
    ensures var read := Read(len, Done(n));
      var (meta', _, replies) := TakeTurns(meta, map[], inode, [Begin(a), Begin(b), Finish(a, read), Finish(b, read)]);
      && replies == [Asked(inode, meta.pos, len, Done(n)), Asked(inode, meta.pos, len, Done(n))]
      && meta'.pos == (meta.pos + 2 * n) % USIZE_RANGE
  {
    var read, taken := Read(len, Done(n)), map[a := meta.pos, b := meta.pos];
    var (meta1, r) := Resume(meta, meta.pos, inode, read);
    FinishFirst(meta1, taken - {a}, inode, b, read, []);
    FinishFirst(meta, taken, inode, a, read, [Finish(b, read)]);
    BeginFirst(meta, map[a := meta.pos], inode, b, [Finish(a, read), Finish(b, read)]);
    BeginFirst(meta, map[], inode, a, [Begin(b), Finish(a, read), Finish(b, read)]);
    assert taken == map[a := meta.pos][b := meta.pos];
    WrapTwice(meta.pos, n, n);
  }

  lemma BeginFirst(meta: Meta, taken: map<nat, u64>, inode: Inode, who: nat, rest: seq<Turn>)
    ensures TakeTurns(meta, taken, inode, [Begin(who)] + rest) ==
      TakeTurns(meta, taken[who := meta.pos], inode, rest)
  {
    assert ([Begin(who)] + rest)[1..] == rest;
  }

  lemma FinishFirst(meta: Meta, taken: map<nat, u64>, inode: Inode, who: nat, call: Call, rest: seq<Turn>)
    requires who in taken && Transfers(call)
    ensures var (meta1, r) := Resume(meta, taken[who], inode, call);
      TakeTurns(meta, taken, inode, [Finish(who, call)] + rest) ==
        Answered(r, TakeTurns(meta1, taken - {who}, inode, rest))
  {
    assert ([Finish(who, call)] + rest)[1..] == rest;
  }

  function NewMeta(inode: Inode, size: u64, flags: Flags): Meta {
    Meta(if flags.append then size else 0, flags, inode)
  }

  function Opening(w: World, inode: Inode, size: u64, flags: Flags): World {
    var id := w.nextId;
    World(w.files[id := Regular(inode)], w.shadow + {id},
      if Key(id) in w.records then w.records else w.records[Key(id) := NewMeta(inode, size, flags)],
      (id + 1) % USIZE_RANGE)
  }

  /** Closing drops the file, and dropping a regular file removes its record. */
  function Closing(w: World, id: u64): (World, Reply) {
    if id < FIRST_ID then (w, Closed)
    else if id in w.files && w.files[id].Regular? then
      (World(w.files - {id}, w.shadow - {id}, w.records - {Key(id)}, w.nextId),
       if Key(id) in w.records then Closed else Panics)
    else (World(w.files - {id}, w.shadow - {id}, w.records, w.nextId), Closed)
  }

  function Using(w: World, id: u64, call: Call): (World, Reply) {
    if id !in w.files then (w, Panics)
    else match w.files[id]
      case Special(file) => (w, ToSpecial(file))
      case Regular(inode) =>
        if Key(id) !in w.records then (w, Panics)
        else
          var (meta, r) := Perform(w.records[Key(id)], inode, call);
          (w.(records := w.records[Key(id) := meta]), r)
  }

  /** The new domain starts with an empty table and enters every id it finds in the
      shadow, with the inode its record names. */
  function Swapping(w: World): (World, Reply) {
    if forall id :: id in w.shadow ==> Key(id) in w.records then
      (w.(files := map id | id in w.shadow :: Regular(w.records[Key(id)].inode)), Swapped)
    else (w.(files := map[]), Panics)
  }

  function Step(w: World, op: Op): (World, Reply) {
    match op
    case Open(inode, size, flags) => (Opening(w, inode, size, flags), Opened(w.nextId))
    case OpenSpecial(file) =>
      (w.(files := w.files[w.nextId := Special(file)], nextId := (w.nextId + 1) % USIZE_RANGE), Opened(w.nextId))
    case Close(id) => Closing(w, id)
    case Use(id, call) => Using(w, id, call)
    case Swap => Swapping(w)
  }

  /** What every step keeps: the shadow ids are exactly those with a record, and exactly
      those of the regular files in the table; a file and its record name the same
      inode; and ids not handed out yet are unknown. */
  ghost predicate Sound(w: World) {
    && Recorded(w.shadow, w.records)
    && (forall id {:trigger id in w.shadow} :: id in w.shadow ==>
      id in w.files && id < w.nextId && w.files[id] == Regular(w.records[Key(id)].inode))
    && (forall id {:trigger id in w.files} :: id in w.files ==>
          id < w.nextId && (id in w.shadow || w.files[id].Special?))
    && (forall id: u64 :: id < FIRST_ID ==> id in w.shadow)
    && w.nextId >= FIRST_ID
  }

  /** The shadow ids are exactly those with a record, and storage holds no other. */
  ghost predicate Recorded(shadow: set<u64>, records: map<string, Meta>) {
    && (forall id {:trigger id in shadow} :: id in shadow ==> Key(id) in records)
    && (forall k {:trigger k in records} :: k in records ==> exists id :: id in shadow && k == Key(id))
  }

  lemma OwnRecord(shadow: set<u64>, records: map<string, Meta>, id: u64, meta: Meta)
    requires Recorded(shadow, records)
    ensures id in shadow <==> Key(id) in records
    ensures Recorded(shadow + {id}, records[Key(id) := meta]) && Recorded(shadow - {id}, records - {Key(id)})
    ensures forall other {:trigger Key(other)} :: other in shadow && other != id ==> Key(other) != Key(id)
  {
    forall other: u64 ensures Key(other) == Key(id) <==> other == id {
      KeyInjective(other, id);
    }
  }

  function Registered(w: World, id: u64, inode: Inode, flags: Flags): World {
    World(w.files[id := Regular(inode)], w.shadow + {id}, w.records[Key(id) := NewMeta(inode, 0, flags)], w.nextId)
  }

  const EMPTY := World(map[], {}, map[], FIRST_ID)

  /** The table of the first domain: the root directory and three handles on the
      terminal. */
  function Boot(root: Inode, tty: Inode, rdwr: Flags, rdonly: Flags, wronly: Flags): World {
    Registered(Registered(Registered(Registered(EMPTY, 0, root, rdwr), 1, tty, rdonly), 2, tty, wronly), 3, tty, wronly)
  }

  /** Each of the first ids finds its key free. */
  lemma BootKeys(root: Inode, tty: Inode, rdwr: Flags, rdonly: Flags, wronly: Flags)
    ensures var w1 := Registered(EMPTY, 0, root, rdwr);
      var w2 := Registered(w1, 1, tty, rdonly);
      var w3 := Registered(w2, 2, tty, wronly);
      Key(1) !in w1.records && Key(2) !in w2.records && Key(3) !in w3.records
  {
    forall m: nat, n: nat | m < n < 4 ensures Key(m) != Key(n) {
      KeyInjective(m, n);
    }
  }

  /** The first `n` ids are registered. */
  ghost predicate Booted(w: World, n: nat) {
    && Recorded(w.shadow, w.records) && w.nextId == FIRST_ID
    && (forall i: u64 {:trigger i in w.shadow} :: i in w.shadow <==> i < n)
    && (forall i {:trigger i in w.files} :: i in w.files <==> i in w.shadow)
    && (forall i {:trigger w.files[i]} :: i in w.shadow ==> w.files[i] == Regular(w.records[Key(i)].inode))
  }

  lemma RegisteredNext(w: World, id: u64, inode: Inode, flags: Flags)
    requires Booted(w, id)
    ensures Booted(Registered(w, id, inode, flags), id + 1)
  {
    OwnRecord(w.shadow, w.records, id, NewMeta(inode, 0, flags));
  }

  lemma BootIsSound(root: Inode, tty: Inode, rdwr: Flags, rdonly: Flags, wronly: Flags)
    ensures Sound(Boot(root, tty, rdwr, rdonly, wronly))
  {
    var w1 := Registered(EMPTY, 0, root, rdwr);
    var w2 := Registered(w1, 1, tty, rdonly);
    var w3 := Registered(w2, 2, tty, wronly);
    RegisteredNext(EMPTY, 0, root, rdwr);
    RegisteredNext(w1, 1, tty, rdonly);
    RegisteredNext(w2, 2, tty, wronly);
    RegisteredNext(w3, 3, tty, wronly);
    BootedIsSound(Registered(w3, 3, tty, wronly));
  }

  lemma BootedIsSound(w: World)
    requires Booted(w, FIRST_ID)
    ensures Sound(w)
  {
  }

  // ---------------------------------------------------------------- one step

  predicate TakesId(op: Op) {
    op.Open? || op.OpenSpecial?
  }

  /** The counter of ids does not wrap around in this step. */
  predicate IdLeft(w: World, op: Op) {
    TakesId(op) ==> w.nextId + 1 < USIZE_RANGE
  }

  lemma OpenKeepsSound(w: World, inode: Inode, size: u64, flags: Flags)
    requires Sound(w) && w.nextId + 1 < USIZE_RANGE
    ensures Sound(Opening(w, inode, size, flags))
    ensures Opening(w, inode, size, flags).records == w.records[Key(w.nextId) := NewMeta(inode, size, flags)]
  {
    OwnRecord(w.shadow, w.records, w.nextId, NewMeta(inode, size, flags));
  }

  lemma CloseKeepsSound(w: World, id: u64)
    requires Sound(w)
    ensures Sound(Closing(w, id).0) && Closing(w, id).1 == Closed
  {
    if id in w.shadow {
      OwnRecord(w.shadow, w.records, id, w.records[Key(id)]);
    } else {
      assert w.shadow - {id} == w.shadow;
    }
  }

  lemma PerformKeepsInode(meta: Meta, inode: Inode, call: Call)
    ensures Perform(meta, inode, call).0.inode == meta.inode
    ensures Perform(meta, inode, call).1 != Panics
  {
  }

  lemma ChangedKeepsSound(w: World, id: u64, meta: Meta)
    requires Sound(w) && id in w.shadow && meta.inode == w.records[Key(id)].inode
    ensures Sound(w.(records := w.records[Key(id) := meta]))
  {
    OwnRecord(w.shadow, w.records, id, meta);
    assert w.shadow + {id} == w.shadow;
  }

  lemma UseKeepsSound(w: World, id: u64, call: Call)
    requires Sound(w)
    ensures Sound(Using(w, id, call).0) && (Using(w, id, call).1 == Panics <==> id !in w.files)
  {
    if id in w.shadow {
      var meta := w.records[Key(id)];
      PerformKeepsInode(meta, meta.inode, call);
      ChangedKeepsSound(w, id, Perform(meta, meta.inode, call).0);
    }
  }

  function RegularFiles(w: World): map<u64, Handle> {
    map id | id in w.files && w.files[id].Regular? :: w.files[id]
  }

  /** Recovery misses no record and keeps the regular files, and only those. */
  lemma SwapKeepsRegularFiles(w: World)
    requires Sound(w)
    ensures Step(w, Swap) == (w.(files := RegularFiles(w)), Swapped)
    ensures Sound(Step(w, Swap).0)
  {
    assert RegularFiles(w).Keys == w.shadow;
    assert Step(w, Swap).0.files == RegularFiles(w);
  }

  /** Every step keeps the table sound, and the only one to panic is the use of an id
      that denotes no file. */
  lemma StepKeepsSound(w: World, op: Op)
    requires Sound(w) && IdLeft(w, op)
    ensures Sound(Step(w, op).0)
    ensures Step(w, op).1 == Panics <==> op.Use? && op.id !in w.files
  {
    match op
    case Open(inode, size, flags) => OpenKeepsSound(w, inode, size, flags);
    case OpenSpecial(file) =>
    case Close(id) => CloseKeepsSound(w, id);
    case Use(id, call) => UseKeepsSound(w, id, call);
    case Swap => SwapKeepsRegularFiles(w);
  }

  /** A step leaves the position, the flags and the inode of every regular file alone that
      it neither uses nor closes. */
  lemma StepTouchesOneFile(w: World, op: Op, other: u64)
    requires Sound(w) && other in w.shadow
    requires (op.Use? || op.Close?) ==> op.id != other
    ensures var w' := Step(w, op).0;
      && other in w'.shadow && Key(other) in w.records && Key(other) in w'.records
      && w'.records[Key(other)] == w.records[Key(other)]
  {
    match op {
      case Close(id) => KeyInjective(id, other);
      case Use(id, call) => KeyInjective(id, other);
      case _ =>
    }
  }

  // ---------------------------------------------------------------- what a step does, by its arguments

  /** A table knows the same about `id` as another. */
  ghost predicate SameFile(w: World, v: World, id: u64) {
    && (id in w.files <==> id in v.files) && (id in w.files ==> w.files[id] == v.files[id])
    && (id in w.shadow <==> id in v.shadow)
    && (Key(id) in w.records <==> Key(id) in v.records)
    && (Key(id) in w.records ==> w.records[Key(id)] == v.records[Key(id)])
  }

  /** Opening enters a regular file under the next id, with a record that starts at the end of
      a file that is appended to and at the start of any other. */
  lemma OpenOutcome(w: World, inode: Inode, size: u64, flags: Flags)
    requires Sound(w)
    ensures var (w', r) := Step(w, Open(inode, size, flags));
      var id := w.nextId;
      && r == Opened(id) && w'.nextId == (id + 1) % USIZE_RANGE
      && id in w'.files && w'.files[id] == Regular(inode) && id in w'.shadow && Key(id) in w'.records
      && w'.records[Key(id)].inode == inode && w'.records[Key(id)].flags == flags
      && w'.records[Key(id)].pos == (if flags.append then size else 0)
      && forall other: u64 :: other != id ==> SameFile(w, w', other)
  {
    OwnRecord(w.shadow, w.records, w.nextId, Meta(0, flags, inode));
    forall other: u64 | other != w.nextId ensures SameFile(w, Step(w, Open(inode, size, flags)).0, other) {
      KeyInjective(other, w.nextId);
    }
  }

  /** A special file gets the next id and leaves no trace in the storage. */
  lemma OpenSpecialOutcome(w: World, file: nat)
    requires Sound(w)
    ensures var (w', r) := Step(w, OpenSpecial(file));
      && r == Opened(w.nextId) && w'.nextId == (w.nextId + 1) % USIZE_RANGE
      && w'.files == w.files[w.nextId := Special(file)] && w'.shadow == w.shadow && w'.records == w.records
  {
  }

  /** Closing takes an id out of the table, the shadow and the records, and touches no other;
      the ids of the root and the standard streams it leaves alone. */
  lemma CloseOutcome(w: World, id: u64)
    requires Sound(w)
    ensures var (w', r) := Step(w, Close(id));
      && r == Closed && w'.nextId == w.nextId
      && (if id < 4 then w' == w else id !in w'.files && id !in w'.shadow && Key(id) !in w'.records)
      && forall other: u64 :: other != id ==> SameFile(w, w', other)
  {
    CloseKeepsSound(w, id);
    if id in w.shadow {
      OwnRecord(w.shadow, w.records, id, w.records[Key(id)]);
    } else {
      OwnRecord(w.shadow, w.records, id, Meta(0, Flags(false, false, false, false), Inode(0, 0)));
    }
    forall other: u64 | other != id ensures SameFile(w, Step(w, Close(id)).0, other) {
      KeyInjective(other, id);
    }
  }

  /** A call on an id goes to the special file, or to the regular file's record and inode; no
      other id is touched. */
  lemma UseOutcome(w: World, id: u64, call: Call)
    requires Sound(w)
    ensures var (w', r) := Step(w, Use(id, call));
      && w'.files == w.files && w'.shadow == w.shadow && w'.nextId == w.nextId
      && (id !in w.files ==> r == Panics && w' == w)
      && (id in w.files && w.files[id].Special? ==> r == ToSpecial(w.files[id].file) && w' == w)
      && (id in w.files && w.files[id].Regular? ==>
        && Key(id) in w.records && Key(id) in w'.records
        && (w'.records[Key(id)], r) == Perform(w.records[Key(id)], w.files[id].inode, call))
      && forall other: u64 :: other != id ==> SameFile(w, w', other)
  {
    forall other: u64 | other != id ensures SameFile(w, Step(w, Use(id, call)).0, other) {
      KeyInjective(other, id);
    }
  }

  /** What a call makes of a file's record. A transfer of nothing returns at once; one without
      the access flag is refused, and exactly that; any other asks the inode at the position,
      which moves by what was done. */
  lemma TransferOutcome(meta: Meta, inode: Inode, call: Call)
    requires Transfers(call)
    ensures var (meta', r) := Perform(meta, inode, call);
      var allowed := if call.Read? then meta.flags.rdonly || meta.flags.rdwr else meta.flags.wronly || meta.flags.rdwr;
      && (r == EPERM <==> call.len > 0 && !allowed)
      && (r == Asked(inode, meta.pos, call.len, call.answer) <==> call.len > 0 && allowed)
      && (r == Transferred(0) <==> call.len == 0)
      && meta'.flags == meta.flags && meta'.inode == meta.inode
      && meta'.pos == (if call.len > 0 && allowed && call.answer.Done? then (meta.pos + call.answer.n) % USIZE_RANGE
                       else meta.pos)
  {
  }

  /** A seek from the start leads to the offset given, one from the current position or the
      end that far behind it; exactly a target that is no word is refused. */
  lemma SeekOutcome(meta: Meta, inode: Inode, how: SeekFrom, size: Answer)
    ensures var (meta', r) := Perform(meta, inode, Seek(how, size));
      && (size.Failed? ==> r == FsError(inode) && meta' == meta)
      && (size.Done? ==>
        var from := if how.Start? then 0 else if how.Current? then meta.pos else size.n;
        var target: int := from + (if how.Start? then how.at else how.off);
        if target < 0 || target >= USIZE_RANGE then r == Invalid && meta' == meta
        else r == Moved(inode, target) && meta' == Meta(target, meta.flags, meta.inode))
  {
  }

  /** Setting flags sets the flags. */
  lemma SetFlagsOutcome(meta: Meta, inode: Inode, flags: Flags)
    ensures Perform(meta, inode, SetFlags(flags)) == (Meta(meta.pos, flags, meta.inode), FlagsSet)
  {
  }

  /** A swap keeps the regular files, each with the inode of its record, and loses the
      others; shadow, records and the next id stay. */
  lemma SwapOutcome(w: World)
    requires Sound(w)
    ensures var (w', r) := Step(w, Swap);
      && r == Swapped && w'.shadow == w.shadow && w'.records == w.records && w'.nextId == w.nextId
      && (forall id: u64 :: id in w'.files <==> id in w.files && w.files[id].Regular?)
      && (forall id: u64 :: id in w'.files ==> w'.files[id] == w.files[id] == Regular(w.records[Key(id)].inode))
  {
    SwapKeepsRegularFiles(w);
  }

  /** The first table: the root under 0, readable and writable, and the terminal under 1 to
      read and under 2 and 3 to write, each at its start. */
  lemma BootOutcome(root: Inode, tty: Inode, rdwr: Flags, rdonly: Flags, wronly: Flags)
    requires !rdwr.append && !rdonly.append && !wronly.append
    ensures var w := Boot(root, tty, rdwr, rdonly, wronly);
      && w.nextId == 4
      && (forall id: u64 :: id in w.files <==> id < 4) && (forall id: u64 :: id in w.shadow <==> id < 4)
      && w.files[0] == Regular(root) && w.files[1] == w.files[2] == w.files[3] == Regular(tty)
      && (forall id: u64 :: id < 4 ==> Key(id) in w.records)
      && w.records[Key(0)] == Meta(0, rdwr, root) && w.records[Key(1)] == Meta(0, rdonly, tty)
      && w.records[Key(2)] == w.records[Key(3)] == Meta(0, wronly, tty)
  {
    var w := Boot(root, tty, rdwr, rdonly, wronly);
    BootHolds(root, tty, rdwr, rdonly, wronly);
    var metas := [Meta(0, rdwr, root), Meta(0, rdonly, tty), Meta(0, wronly, tty), Meta(0, wronly, tty)];
    forall id: u64 | id < 4 ensures w.files[id] == Regular(metas[id].inode) && Key(id) in w.records {
      HoldsAt(w, metas, id);
    }
    HoldsAt(w, metas, 0);
    HoldsAt(w, metas, 1);
    HoldsAt(w, metas, 2);
    HoldsAt(w, metas, 3);
  }

  /** The table holds one file for each of the records, in their order, and no other. */
  ghost predicate HoldsFiles(w: World, metas: seq<Meta>) {
    && w.nextId == 4
    && (forall id: u64 :: id in w.files <==> id < |metas|) && (forall id: u64 :: id in w.shadow <==> id < |metas|)
    && (forall id: u64 {:trigger metas[id]} {:trigger w.files[id]} :: id < |metas| ==>
      w.files[id] == Regular(metas[id].inode) && Key(id) in w.records && w.records[Key(id)] == metas[id])
  }

  lemma HoldsNext(w: World, metas: seq<Meta>, inode: Inode, flags: Flags)
    requires HoldsFiles(w, metas) && |metas| < 4 && !flags.append
    ensures HoldsFiles(Registered(w, |metas|, inode, flags), metas + [Meta(0, flags, inode)])
  {
    forall id: u64 | id < |metas| ensures Key(id) != Key(|metas|) {
      KeyInjective(id, |metas|);
    }
  }

  lemma HoldsAt(w: World, metas: seq<Meta>, id: u64)
    requires HoldsFiles(w, metas) && id < |metas|
    ensures id in w.files && w.files[id] == Regular(metas[id].inode)
    ensures Key(id) in w.records && w.records[Key(id)] == metas[id]
  {
  }

  lemma BootHolds(root: Inode, tty: Inode, rdwr: Flags, rdonly: Flags, wronly: Flags)
    requires !rdwr.append && !rdonly.append && !wronly.append
    ensures HoldsFiles(Boot(root, tty, rdwr, rdonly, wronly),
                       [Meta(0, rdwr, root), Meta(0, rdonly, tty), Meta(0, wronly, tty), Meta(0, wronly, tty)])
  {
    var w1 := Registered(EMPTY, 0, root, rdwr);
    var w2 := Registered(w1, 1, tty, rdonly);
    var w3 := Registered(w2, 2, tty, wronly);
    var m1 := [Meta(0, rdwr, root)];
    var m2 := m1 + [Meta(0, rdonly, tty)];
    var m3 := m2 + [Meta(0, wronly, tty)];
    HoldsNext(EMPTY, [], root, rdwr);
    assert [] + m1 == m1;
    HoldsNext(w1, m1, tty, rdonly);
    HoldsNext(w2, m2, tty, wronly);
    HoldsNext(w3, m3, tty, wronly);
    assert m3 + [Meta(0, wronly, tty)] ==
      [Meta(0, rdwr, root), Meta(0, rdonly, tty), Meta(0, wronly, tty), Meta(0, wronly, tty)];
  }

  // ---------------------------------------------------------------- runs

  ghost predicate IdsLeft(w: World, run: seq<Op>)
    decreases |run|
  {
    run == [] || (IdLeft(w, run[0]) && IdsLeft(Step(w, run[0]).0, run[1..]))
  }

  ghost function After(w: World, run: seq<Op>): World
    decreases |run|
  {
    if run == [] then w else After(Step(w, run[0]).0, run[1..])
  }

  ghost function Replies(w: World, run: seq<Op>): (r: seq<Reply>)
    ensures |r| == |run|
    decreases |run|
  {
    if run == [] then [] else [Step(w, run[0]).1] + Replies(Step(w, run[0]).0, run[1..])
  }

  lemma {:induction false} RunKeepsSound(w: World, run: seq<Op>)
    requires Sound(w) && IdsLeft(w, run)
    ensures Sound(After(w, run)) && After(w, run).nextId >= w.nextId
    decreases |run|
  {
    if run != [] {
      StepKeepsSound(w, run[0]);
      RunKeepsSound(Step(w, run[0]).0, run[1..]);
    }
  }

  lemma ClosedAfterStep(w: World, op: Op, id: u64)
    requires Sound(w) && IdLeft(w, op) && id < w.nextId && id !in w.files
    ensures id !in Step(w, op).0.files && Step(w, op).1 != Opened(id) && id < Step(w, op).0.nextId
  {
    if op == Swap {
      SwapKeepsRegularFiles(w);
    }
  }

  /** An id once closed is never open again: it is not handed out a second time, and no
      swap brings it back. */
  lemma {:induction false} ClosedStaysClosed(w: World, run: seq<Op>, id: u64)
    requires Sound(w) && IdsLeft(w, run)
    requires id < w.nextId && id !in w.files
    ensures id !in After(w, run).files && Opened(id) !in Replies(w, run)
    decreases |run|
  {
    if run != [] {
      ClosedAfterStep(w, run[0], id);
      StepKeepsSound(w, run[0]);
      ClosedStaysClosed(Step(w, run[0]).0, run[1..], id);
    }
  }

  /** Once closed, an id that was handed out panics whoever uses it, at once and after every
      later run. */
  lemma {:induction false} ClosedPanics(w: World, id: u64, run: seq<Op>, call: Call)
    requires Sound(w) && 4 <= id < w.nextId && IdsLeft(Step(w, Close(id)).0, run)
    ensures Step(After(Step(w, Close(id)).0, run), Use(id, call)).1 == Panics
  {
    var w' := Step(w, Close(id)).0;
    CloseOutcome(w, id);
    StepKeepsSound(w, Close(id));
    ClosedStaysClosed(w', run, id);
    RunKeepsSound(w', run);
    UseOutcome(After(w', run), id, call);
  }

  /** No id is handed out twice in a run, however it is interleaved with swaps. */
  lemma {:induction false} IdsAreFresh(w: World, run: seq<Op>, i: nat, j: nat)
    requires IdsLeft(w, run)
    requires i < j < |run| && TakesId(run[i]) && TakesId(run[j])
    ensures Replies(w, run)[i].Opened? && Replies(w, run)[j].Opened?
    ensures w.nextId <= Replies(w, run)[i].id < Replies(w, run)[j].id
    decreases |run|
  {
    NextIdGrows(w, run[0]);
    LaterReply(w, run, j);
    if i > 0 {
      LaterReply(w, run, i);
      IdsAreFresh(Step(w, run[0]).0, run[1..], i - 1, j - 1);
    } else {
      LaterIds(Step(w, run[0]).0, run[1..], j - 1);
    }
  }

  lemma LaterReply(w: World, run: seq<Op>, i: nat)
    requires 0 < i < |run|
    ensures Replies(w, run)[i] == Replies(Step(w, run[0]).0, run[1..])[i - 1]
  {
  }

  lemma NextIdGrows(w: World, op: Op)
    requires IdLeft(w, op)
    ensures Step(w, op).0.nextId == if TakesId(op) then w.nextId + 1 else w.nextId
    ensures TakesId(op) ==> Step(w, op).1 == Opened(w.nextId)
  {
  }

  lemma {:induction false} LaterIds(w: World, run: seq<Op>, j: nat)
    requires IdsLeft(w, run)
    requires j < |run| && TakesId(run[j])
    ensures Replies(w, run)[j].Opened? && Replies(w, run)[j].id >= w.nextId
    decreases |run|
  {
    NextIdGrows(w, run[0]);
    if j > 0 {
      LaterReply(w, run, j);
      LaterIds(Step(w, run[0]).0, run[1..], j - 1);
    }
  }

  // ---------------------------------------------------------------- a swap does not show

  /** Two tables alike but for the special files `lost`, which only the first has. */
  ghost predicate Alike(w: World, v: World, lost: set<u64>) {
    && v == w.(files := v.files)
    && (forall id :: id in v.files <==> id in w.files && id !in lost)
    && (forall id :: id in v.files ==> v.files[id] == w.files[id])
    && (forall id :: id in lost ==> id in w.files && w.files[id].Special?)
  }

  /** Which lost files the first table still has after a step. */
  function StillLost(lost: set<u64>, op: Op): set<u64> {
    match op
    case Close(id) => lost - {id}
    case Swap => {}
    case _ => lost
  }

  /** The run uses a file of `lost` before it closes it or swaps again. */
  predicate Uses(run: seq<Op>, lost: set<u64>) {
    run != [] && ((run[0].Use? && run[0].id in lost) || Uses(run[1..], StillLost(lost, run[0])))
  }

  lemma UseAlike(w: World, v: World, lost: set<u64>, id: u64, call: Call)
    requires Sound(w) && Sound(v) && Alike(w, v, lost)
    ensures Using(v, id, call).1 == Using(w, id, call).1 <==> id !in lost
    ensures id !in lost ==> Alike(Using(w, id, call).0, Using(v, id, call).0, lost)
  {
  }

  lemma CloseAlike(w: World, v: World, lost: set<u64>, id: u64)
    requires Sound(w) && Sound(v) && Alike(w, v, lost)
    ensures Closing(v, id).1 == Closing(w, id).1 && Alike(Closing(w, id).0, Closing(v, id).0, lost - {id})
  {
    assert id < FIRST_ID ==> id in w.shadow;
  }

  /** One step on both tables. */
  lemma StepAlike(w: World, v: World, lost: set<u64>, op: Op)
    requires Sound(w) && Sound(v) && Alike(w, v, lost) && IdLeft(w, op)
    ensures Step(v, op).1 == Step(w, op).1 <==> !(op.Use? && op.id in lost)
    ensures !(op.Use? && op.id in lost) ==> Alike(Step(w, op).0, Step(v, op).0, StillLost(lost, op))
  {
    match op
    case Open(inode, size, flags) =>
    case OpenSpecial(file) =>
    case Close(id) =>
      CloseAlike(w, v, lost, id);
    case Use(id, call) =>
      UseAlike(w, v, lost, id, call);
    case Swap =>
      SwapKeepsRegularFiles(w);
      SwapKeepsRegularFiles(v);
  }

  lemma {:induction false} RunAlike(w: World, v: World, lost: set<u64>, run: seq<Op>)
    requires Sound(w) && Sound(v) && Alike(w, v, lost) && IdsLeft(w, run)
    ensures Replies(v, run) == Replies(w, run) <==> !Uses(run, lost)
    decreases |run|
  {
    if run != [] {
      var op := run[0];
      StepAlike(w, v, lost, op);
      StepKeepsSound(w, op);
      assert Replies(v, run)[0] == Step(v, op).1 && Replies(w, run)[0] == Step(w, op).1;
      if !(op.Use? && op.id in lost) {
        StepKeepsSound(v, op);
        RunAlike(Step(w, op).0, Step(v, op).0, StillLost(lost, op), run[1..]);
        assert Replies(v, run)[1..] == Replies(Step(v, op).0, run[1..]);
        assert Replies(w, run)[1..] == Replies(Step(w, op).0, run[1..]);
      }
    }
  }

  function Specials(w: World): set<u64> {
    set id | id in w.files && w.files[id].Special?
  }

  /** No run that opens, closes, reads, writes, seeks and sets flags can tell that the
      layer was swapped: every reply is the same, down to the inode and the offset each
      read and write asks for, unless the run uses a special file that was open at the
      swap. */
  lemma {:induction false} SwapDoesNotShow(w: World, run: seq<Op>)
    requires Sound(w) && IdsLeft(w, run)
    ensures Replies(Step(w, Swap).0, run) == Replies(w, run) <==> !Uses(run, Specials(w))
  {
    SwapKeepsRegularFiles(w);
    RunAlike(w, Step(w, Swap).0, Specials(w), run);
  }

  // ---------------------------------------------------------------- the domain

  datatype File = Kernel(file: KernelFile) | Other(n: nat)

  ghost function HandleOf(f: File): Handle {
    if f.Kernel? then Regular(f.file.inode) else Special(f.n)
  }

  /** A file and the storage share one record, and no two files share one. */
  ghost predicate Tied(files: map<u64, File>, storage: map<string, KMeta>) {
    && (forall id {:trigger id in files} :: id in files && files[id].Kernel? ==>
      files[id].file.inodeId == id && Key(id) in storage && storage[Key(id)] == files[id].file.meta)
    && Apart(storage)
  }

  ghost predicate Apart(storage: map<string, KMeta>) {
    forall k, l {:trigger storage[k], storage[l]} :: k in storage && l in storage && storage[k] == storage[l] ==> k == l
  }

  /** A file tied to its record may enter, and more records may be stored. */
  lemma TiedEntered(files: map<u64, File>, storage: map<string, KMeta>, storage': map<string, KMeta>, id: u64,
                    file: File)
    requires Tied(files, storage) && Apart(storage')
    requires forall k :: k in storage ==> k in storage' && storage'[k] == storage[k]
    requires file.Kernel? ==> file.file.inodeId == id && Key(id) in storage' && storage'[Key(id)] == file.file.meta
    ensures Tied(files[id := file], storage')
  {
  }

  /** A file may leave together with its record. */
  lemma TiedLeft(files: map<u64, File>, storage: map<string, KMeta>, id: u64)
    requires Tied(files, storage)
    ensures Tied(files - {id}, storage - {Key(id)}) && Tied(files - {id}, storage)
  {
    forall other | other in files - {id} && files[other].Kernel? ensures Key(other) != Key(id) {
      KeyInjective(other, id);
    }
  }

  /** The table holds the ids of `ids` and each leads to its record. */
  ghost predicate Recovered(files: map<u64, File>, storage: map<string, KMeta>, ids: set<u64>) {
    && files.Keys == ids
    && (forall id {:trigger files[id]} :: id in ids ==>
      && Key(id) in storage && files[id].Kernel?
      && files[id].file.inodeId == id && files[id].file.meta == storage[Key(id)] &&
           files[id].file.inode == storage[Key(id)].inode)
  }

  class VfsDomain {
    /** The map of this domain. */
    var files: map<u64, File>
    /** What the storage keeps across domains. */
    var shadow: set<u64>
    var storage: map<string, KMeta>
    var inodeId: u64

    ghost function Files(): map<u64, Handle>
      reads this`files
    {
      map id | id in files :: HandleOf(files[id])
    }

    ghost function Records(): map<string, Meta>
      reads this`storage, storage.Values
    {
      map k | k in storage :: storage[k].Value()
    }

    ghost function View(): World
      reads this, storage.Values
    {
      World(Files(), shadow, Records(), inodeId)
    }

    ghost predicate Valid()
      reads this`files, this`storage
    {
      Tied(files, storage)
    }

    /** Puts a file into the table. */
    method Enter(id: u64, file: File)
      modifies this`files
      ensures files == old(files)[id := file] && Files() == old(Files())[id := HandleOf(file)]
    {
      files := files[id := file];
    }

    /** Takes a file out of the table. */
    method Leave(id: u64)
      modifies this`files
      ensures files == old(files) - {id} && Files() == old(Files()) - {id}
    {
      files := files - {id};
    }

    /** The stored record of a key, or else a new one. */
    method GetOrInsert(key: string, pos: u64, flags: Flags, inode: Inode) returns (meta: KMeta)
      modifies this`storage
      ensures key in storage && storage[key] == meta
      ensures if key in old(storage) then storage == old(storage)
        else fresh(meta) && storage == old(storage)[key := meta] && meta.Value() == Meta(pos, flags, inode)
    {
      if key !in storage {
        var m := new KMeta(pos, flags, inode);
        storage := storage[key := m];
      }
      meta := storage[key];
    }

    /** A handle on the stored record of an id, or on a new one. */
    method NewKernelFile(inode: Inode, size: u64, flags: Flags, id: u64) returns (file: KernelFile)
      requires Apart(storage)
      modifies this`storage
      ensures Apart(storage) && Key(id) in storage && file.meta == storage[Key(id)]
      ensures forall k :: k in old(storage) ==> k in storage && storage[k] == old(storage)[k]
      ensures file.inodeId == id && file.inode == inode
      ensures Records() ==
        var r := old(Records());
        if Key(id) in r then r else r[Key(id) := NewMeta(inode, size, flags)]
    {
      var meta := GetOrInsert(Key(id), if flags.append then size else 0, flags, inode);
      file := new KernelFile(inode, meta, id);
    }

    /** Puts a file into the table under one of the first ids. */
    method Register(inode: Inode, flags: Flags, id: u64)
      requires Valid() && Key(id) !in Records() && !flags.append
      modifies this`files, this`shadow, this`storage
      ensures Valid() && View() == Registered(old(View()), id, inode, flags)
    {
      ghost var storage0 := storage;
      var file := NewKernelFile(inode, 0, flags, id);
      TiedEntered(files, storage0, storage, id, Kernel(file));
      Enter(id, Kernel(file));
      shadow := shadow + {id};
    }

    /** The first start. */
    constructor (root: Inode, tty: Inode, rdwr: Flags, rdonly: Flags, wronly: Flags)
      requires !rdwr.append && !rdonly.append && !wronly.append
      ensures Valid() && View() == Boot(root, tty, rdwr, rdonly, wronly)
    {
      files, shadow, storage, inodeId := map[], {}, map[], FIRST_ID;
      new;
      assert View() == EMPTY;
      BootKeys(root, tty, rdwr, rdonly, wronly);
      Register(root, rdwr, 0);
      Register(tty, rdonly, 1);
      Register(tty, wronly, 2);
      Register(tty, wronly, 3);
    }

    method InsertDentry(inode: Inode, size: u64, flags: Flags) returns (id: u64)
      requires Valid() && inodeId !in files
      modifies this
      ensures Valid() && (View(), Opened(id)) == Step(old(View()), Open(inode, size, flags))
    {
      ghost var storage0 := storage;
      id := inodeId;
      inodeId := (id + 1) % USIZE_RANGE;
      var file := NewKernelFile(inode, size, flags, id);
      TiedEntered(files, storage0, storage, id, Kernel(file));
      Enter(id, Kernel(file));
      shadow := shadow + {id};
    }

    method InsertSpecialFile(n: nat) returns (id: u64)
      requires Valid() && inodeId !in files
      modifies this
      ensures Valid() && (View(), Opened(id)) == Step(old(View()), OpenSpecial(n))
    {
      id := inodeId;
      inodeId := (id + 1) % USIZE_RANGE;
      TiedEntered(files, storage, storage, id, Other(n));
      Enter(id, Other(n));
    }

    /** Drops a file that left the table; a regular one takes its record with it. */
    method Drop(file: File) returns (r: Reply)
      requires Apart(storage)
      modifies this`storage
      ensures Apart(storage)
      ensures storage == if file.Kernel? then old(storage) - {Key(file.file.inodeId)} else old(storage)
      ensures Records() == if file.Kernel? then old(Records()) - {Key(file.file.inodeId)} else old(Records())
      ensures r == if file.Kernel? && Key(file.file.inodeId) !in old(storage) then Panics else Closed
    {
      r := Closed;
      if file.Kernel? {
        if Key(file.file.inodeId) !in storage {
          r := Panics;
        }
        storage := storage - {Key(file.file.inodeId)};
      }
    }

    method RemoveFile(id: u64) returns (r: Reply)
      requires Valid()
      modifies this
      ensures Valid() && (View(), r) == Step(old(View()), Close(id))
    {
      if id < FIRST_ID {
        return Closed;
      }
      TiedLeft(files, storage, id);
      if id in files {
        var file := files[id];
        Leave(id);
        r := Drop(file);
      } else {
        assert Files() - {id} == Files();
        r := Closed;
      }
      shadow := shadow - {id};
    }

    /** Reading, writing, seeking and setting flags through an id. */
    method CallFile(id: u64, call: Call) returns (r: Reply)
      requires Valid()
      modifies storage.Values
      ensures Valid() && (View(), r) == Step(old(View()), Use(id, call))
    {
      if id !in files {
        return Panics;
      }
      match files[id] {
        case Other(n) =>
          r := ToSpecial(n);
        case Kernel(file) =>
          ghost var records := Records();
          match call {
            case Read(len, answer) => r := file.Read(len, answer);
            case Write(len, answer) => r := file.Write(len, answer);
            case Seek(how, size) => r := file.Seek(how, size);
            case SetFlags(flags) =>
              file.SetOpenFlag(flags);
              r := FlagsSet;
          }
          assert (file.meta.Value(), r) == Perform(records[Key(id)], file.inode, call);
          assert Records() == records[Key(id) := file.meta.Value()];
      }
    }

    /** Enters every id of the shadow; fails at one without a record. */
    method FillTable() returns (complete: bool)
      modifies this`files
      ensures complete <==> forall id :: id in shadow ==> Key(id) in storage
      ensures if complete then Recovered(files, storage, shadow) else files == map[]
    {
      files := map[];
      var todo := shadow;
      while todo != {}
        invariant todo <= shadow && Recovered(files, storage, shadow - todo)
        decreases |todo|
      {
        var id :| id in todo;
        if Key(id) !in storage {
          files := map[];
          return false;
        }
        var meta := storage[Key(id)];
        var file := new KernelFile(meta.inode, meta, id);
        files := files[id := Kernel(file)];
        todo := todo - {id};
      }
      assert shadow - todo == shadow;
      assert forall id :: id in shadow ==> files[id].Kernel?;
      complete := true;
    }

    lemma RecoveredIsSwapped()
      requires Recovered(files, storage, shadow)
      ensures Files() == map id | id in shadow && Key(id) in Records() :: Regular(Records()[Key(id)].inode)
    {
      forall id | id in shadow
        ensures id in Files() && Key(id) in Records() && Files()[id] == Regular(Records()[Key(id)].inode)
      {
        assert Records()[Key(id)] == storage[Key(id)].Value();
      }
    }

    /** Domain start after a swap: the table is new and is filled from the storage. */
    method Recover() returns (r: Reply)
      requires Valid()
      modifies this`files
      ensures Valid() && (View(), r) == Step(old(View()), Swap)
    {
      ghost var w := View();
      var complete := FillTable();
      assert forall id :: id in shadow ==> (Key(id) in storage <==> Key(id) in w.records);
      if complete {
        RecoveredIsSwapped();
        assert Files() == Swapping(w).0.files;
        r := Swapped;
      } else {
        assert Files() == map[];
        r := Panics;
      }
    }
  }
}
