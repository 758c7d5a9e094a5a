/** The connection the client owns: tokio's `BufStream` over a TCP or Unix
    socket, reduced to what the protocol observes. The peer's side is the
    sequence of bytes it sends before closing, read through a cursor; the
    client's side is the sequence of bytes written so far, of which a prefix
    has been flushed to the socket. */
module Stream {
  import opened Bytes
  import opened Errors
  import opened Wire

  class BufStream {
    /** Every byte the client has written, in order. */
    var output: seq<byte>
    /** How many of them `flush` has pushed to the socket. */
    var flushed: nat
    /** Every byte the peer sends before it closes the connection. */
    const input: seq<byte>
    /** How many of them have been consumed. */
    var pos: nat

    ghost predicate Valid()
      reads this
    {
      flushed <= |output| && pos <= |input|
    }

    constructor (peer: seq<byte>)
      ensures Valid()
      ensures output == [] && flushed == 0 && input == peer && pos == 0
    {
      output, flushed, input, pos := [], 0, peer, 0;
    }

    /** `write_all`: appends to the write buffer. */
    method WriteAll(bytes: seq<byte>)
      requires Valid()
      modifies this
      ensures Valid()
      ensures output == old(output) + bytes && flushed == old(flushed) && pos == old(pos)
    {
      output := output + bytes;
    }

    /** `write_u8`. */
    method WriteU8(b: byte)
      requires Valid()
      modifies this
      ensures Valid()
      ensures output == old(output) + [b] && flushed == old(flushed) && pos == old(pos)
    {
      output := output + [b];
    }

    /** `flush`: everything written so far reaches the socket. */
    method Flush()
      requires Valid()
      modifies this
      ensures Valid()
      ensures output == old(output) && flushed == |output| && pos == old(pos)
    {
      flushed := |output|;
    }

    /** `read_exact` of `n` bytes. */
    method ReadExact(n: nat) returns (r: Result<seq<byte>>)
      requires Valid()
      modifies this
      ensures Valid()
      ensures output == old(output) && flushed == old(flushed)
      ensures Read(r, pos) == ReadExactAt(input, old(pos), n)
    {
      if pos + n <= |input| {
        r := Ok(input[pos..pos + n]);
        pos := pos + n;
      } else {
        r := Err(UnexpectedEof);
        pos := |input|;
      }
    }

    /** `read_line` into an empty `String`: the bytes up to and including the
        first newline, or up to the end of the stream; they must be UTF-8. */
    method ReadLine() returns (r: Result<seq<byte>>)
      requires Valid()
      modifies this
      ensures Valid()
      ensures output == old(output) && flushed == old(flushed)
      ensures Read(r, pos) == LineAt(input, old(pos))
    {
      var i := pos;
      while i < |input| && input[i] != NEWLINE
        invariant pos <= i <= |input|
        invariant LineEnd(input, i) == LineEnd(input, pos)
        decreases |input| - i
      {
        i := i + 1;
      }
      var end := if i < |input| then i + 1 else i;
      var line := input[pos..end];
      r := if ValidUtf8(line) then Ok(line) else Err(InvalidData);
      pos := end;
    }
  }
}
