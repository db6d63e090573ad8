/** What every component needs: optional values, bytes and machine words, the two sizes
    all agree on, and splicing a run of bytes into a longer one. */
module Bytes {

  datatype Option<T> = None | Some(value: T)

  type byte = x: int | 0 <= x < 256

  /** Machine words, and the number of values one can take. */
  const USIZE_RANGE := 0x1_0000_0000_0000_0000

  type u64 = x: int | 0 <= x < USIZE_RANGE

  const BLOCK_SIZE := 512
  const FRAME_SIZE := 4096
  const BLOCKS_PER_FRAME := 8

  function Min(a: int, b: int): int {
    if a <= b then a else b
  }

  function Max(a: int, b: int): int {
    if a >= b then a else b
  }

  /** `s` with the bytes from `at` on replaced by `data`. */
  function Splice<T>(s: seq<T>, at: nat, data: seq<T>): (r: seq<T>)
    requires at + |data| <= |s|
  {
    s[..at] + data + s[at + |data|..]
  }

  /** `Splice`, where an empty run may lie anywhere, even past the end of `s`. */
  function Overwrite<T>(s: seq<T>, at: nat, data: seq<T>): (r: seq<T>)
    requires data == [] || at + |data| <= |s|
    ensures |r| == |s|
  {
    if data == [] then s else Splice(s, at, data)
  }

  /** `now` is `was` with the first `done` bytes of `data` written from `at` on. */
  ghost predicate Written(now: seq<byte>, was: seq<byte>, at: nat, data: seq<byte>, done: nat) {
    && done <= |data| && |now| == |was|
    && forall i :: 0 <= i < |now| ==> now[i] == (if at <= i < at + done then data[i - at] else was[i])
  }

  lemma WrittenMore(now: seq<byte>, now': seq<byte>, was: seq<byte>, at: nat, data: seq<byte>, done: nat, upTo: nat)
    requires Written(now, was, at, data, done) && done <= upTo <= |data| && at + upTo <= |was|
    requires now' == Splice(now, at + done, data[done..upTo])
    ensures Written(now', was, at, data, upTo)
  {
  }

  lemma WrittenAll(now: seq<byte>, was: seq<byte>, at: nat, data: seq<byte>)
    requires Written(now, was, at, data, |data|) && (data == [] || at + |data| <= |was|)
    ensures now == Overwrite(was, at, data)
  {
  }

  lemma WrittenNext(now: seq<byte>, was: seq<byte>, at: nat, data: seq<byte>, done: nat)
    requires Written(now, was, at, data, done) && done < |data| && at + done < |was|
    ensures Written(now[at + done := data[done]], was, at, data, done + 1)
  {
  }

  lemma WrittenPart(now: seq<byte>, was: seq<byte>, at: nat, data: seq<byte>, done: nat)
    requires Written(now, was, at, data, done) && at + done <= |was|
    ensures now == Splice(was, at, data[..done])
  {
  }
}
