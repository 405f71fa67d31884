/**
 The growable staging buffer (`VecBuf` of the dyn_buf crate) as the library
 uses it: readable data followed by writable spare room. Only its sequence
 semantics is modelled; compaction happens implicitly, so consumed room is
 spare again.
 */
module VecBufs {
  import opened Base

  /** Initial spare room the library asks for (`MIN_WRITE`). */
  const MinWrite: nat := 4096

  datatype VecBuf = VecBuf(data: seq<byte>, spare: nat)
  {
    /** Total room: readable data plus spare. */
    function Capacity(): nat
    {
      |data| + spare
    }

    predicate IsEmpty()
    {
      |data| == 0
    }
  }

  /** `VecBuf::new(n)`: empty, with `n` bytes of room. */
  function New(n: nat): (b: VecBuf)
    ensures b.IsEmpty() && b.spare == n
  {
    VecBuf([], n)
  }

  /** `VecBuf::default()`: empty, without room. */
  function Default(): (b: VecBuf)
    ensures b.IsEmpty() && b.Capacity() == 0
  {
    VecBuf([], 0)
  }

  /** `prepare_at_least(n)`: the spare room offered to a writer is at least
      `n`. A buffer that already has `n` bytes of room is left as it is; in
      particular `prepare_at_least(0)`, the only form the library uses,
      offers exactly the spare room. */
  function PrepareAtLeast(b: VecBuf, n: nat): (b': VecBuf)
    ensures b'.data == b.data
    ensures b'.spare >= n && b'.spare >= b.spare
    ensures n <= b.spare ==> b' == b
  {
    if b.spare >= n then b else b.(spare := n)
  }

  /** `commit`: bytes written into the spare room become readable data at the end. */
  function Commit(b: VecBuf, written: seq<byte>): (b': VecBuf)
    requires |written| <= b.spare
    ensures b'.data == b.data + written
    ensures b'.Capacity() == b.Capacity()
  {
    VecBuf(b.data + written, b.spare - |written|)
  }

  /** `consume(n)`: the first `n` readable bytes are dropped, nothing else. */
  function Consume(b: VecBuf, n: nat): (b': VecBuf)
    requires n <= |b.data|
    ensures b.data == b.data[..n] + b'.data
    ensures |b'.data| == |b.data| - n
    ensures b'.Capacity() == b.Capacity()
  {
    VecBuf(b.data[n..], b.spare + n)
  }

  /** `write_all`: append bytes, making room for them first. */
  function WriteAll(b: VecBuf, bytes: seq<byte>): (b': VecBuf)
    ensures b'.data == b.data + bytes
    ensures b'.Capacity() >= b.Capacity()
  {
    Commit(PrepareAtLeast(b, |bytes|), bytes)
  }

  /** `grow`: at least double the room, and never by less than `MinWrite`. */
  function Grow(b: VecBuf): (b': VecBuf)
    ensures b'.data == b.data
    ensures b'.spare >= b.spare + MinWrite
    ensures b'.Capacity() >= 2 * b.Capacity()
  {
    var extra := if b.Capacity() >= MinWrite then b.Capacity() else MinWrite;
    b.(spare := b.spare + extra)
  }
}
