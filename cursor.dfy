/** `std::io::Cursor<Vec<u8>>` as the decoder uses it: an in-memory buffer
    and a read position, read only through `read_exact`. */
module IoCursor {
  import opened Bytes

  class Cursor {
    /** The buffer the cursor owns; nothing here writes to it. */
    const data: seq<byte>
    /** The read position. */
    var pos: nat

    ghost predicate Valid()
      reads this
    {
      pos <= |data|
    }

    /** `Cursor::new(buffer)`: positioned at the start of the buffer. */
    constructor (buffer: seq<byte>)
      ensures Valid()
      ensures data == buffer && pos == 0
    {
      data := buffer;
      pos := 0;
    }

    /** `read_exact(&mut buf)`: when at least `buf.Length` bytes remain,
        fills `buf` with the next bytes and advances past them; otherwise
        fails with UnexpectedEof (the `false` result), leaves `buf` as it
        was and puts the position at the end of the buffer. */
    method ReadExact(buf: array<byte>) returns (ok: bool)
      requires Valid()
      modifies this, buf
      ensures Valid()
      ensures ok <==> |data| - old(pos) >= buf.Length
      ensures ok ==> buf[..] == data[old(pos)..old(pos) + buf.Length]
      ensures ok ==> pos == old(pos) + buf.Length
      ensures !ok ==> buf[..] == old(buf[..]) && pos == |data|
    {
      if |data| - pos < buf.Length {
        pos := |data|;
        return false;
      }
      var start, i := pos, 0;
      while i < buf.Length
        invariant 0 <= i <= buf.Length
        invariant pos == start
        invariant forall k :: 0 <= k < i ==> buf[k] == data[start + k]
      {
        buf[i] := data[start + i];
        i := i + 1;
      }
      pos := start + buf.Length;
      return true;
    }
  }
}
