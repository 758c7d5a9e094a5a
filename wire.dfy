/** The I/O errors the client can return, in the shape of Rust's
    `std::io::Result`. */
module Errors {
  import opened Bytes

  datatype Error =
    | UnexpectedEof                   // `read_exact` hit the end of the stream (ErrorKind::UnexpectedEof)
    | InvalidData                     // `read_line` read bytes that are not UTF-8 (ErrorKind::InvalidData)
    | NegativeLength(declared: int)   // a frame header declared a length below zero
    | ConnectionRefused(message: string)  // the peer's handshake line did not match
    | Other(message: string)          // the server answered a command with a non-zero status
    | Codec(reason: string)           // an error returned by `encode_bin` or `decode_bin`

  datatype Result<T> = Ok(value: T) | Err(error: Error)

  /** `Type::encode_bin` and `Type::decode_bin` of one Rust type. */
  type Encoder<!T> = T -> Result<seq<byte>>
  type Decoder<T> = seq<byte> -> Result<T>
}

/** The byte-level protocol as pure functions: what the client writes, and what
    it makes of the bytes the peer sends, given the read position. The
    class methods in module Client are proved against these functions. */
module Wire {
  import opened Bytes
  import opened Errors

  /** The outcome of reading from the peer's bytes, and the position the read
      stops at. */
  datatype Read<T> = Read(result: Result<T>, next: nat)

  const STATUS_OK: byte := 0

  // ---------------------------------------------------------------------
  // What the client writes

  /** A frame: the payload length as a big-endian `i64`, then the payload. */
  function Frame(data: seq<byte>): (r: seq<byte>)
    ensures |r| == 8 + |data| && r[8..] == data
    ensures |data| < TWO_63 ==> FromBeBytes(r[..8]) == |data|
  {
    var header := ToBeBytes(LenAsI64(|data|));
    FromToBeBytes(LenAsI64(|data|));
    assert (header + data)[..8] == header;
    header + data
  }

  /** The command line `request` writes before its frame. */
  function CommandLine(command: string): seq<byte> {
    EncodeUtf8(command) + [NEWLINE]
  }

  /** Everything `request` writes: the command line, then the frame of the
      encoded arguments; when encoding fails, only the command line. */
  function RequestBytes(command: string, payload: Result<seq<byte>>): (r: seq<byte>)
    ensures var name := EncodeUtf8(command);
      |r| == |name| + 1 + (if payload.Ok? then 8 + |payload.value| else 0) &&
      r[..|name|] == name && r[|name|] == NEWLINE
    ensures payload.Ok? ==> r[|EncodeUtf8(command)| + 1..] == Frame(payload.value)
  {
    var line := CommandLine(command);
    var r := line + (if payload.Ok? then Frame(payload.value) else []);
    assert r[..|line|] == line;
    r
  }

  /** The handshake line: the lower-case hex digest of "V1", then a newline. */
  function HandshakeLine(digest: seq<byte>): (r: seq<byte>)
    ensures |r| == 2 * |digest| + 1
    ensures r[|r| - 1] == NEWLINE && forall k :: 0 <= k < |r| - 1 ==> IsHexDigit(r[k])
  {
    LowerHex(digest) + [NEWLINE]
  }

  // ---------------------------------------------------------------------
  // What the client reads

  /** `read_exact` of `n` bytes at `pos`: all of them, or an end-of-stream
      error once the remaining bytes are used up. */
  function ReadExactAt(input: seq<byte>, pos: nat, n: nat): (r: Read<seq<byte>>)
    requires pos <= |input|
    ensures pos <= r.next <= |input|
    ensures r.result.Ok? <==> pos + n <= |input|
    ensures r.result.Ok? ==> |r.result.value| == n && r.next == pos + n
  {
    if pos + n <= |input| then Read(Ok(input[pos..pos + n]), pos + n)
    else Read(Err(UnexpectedEof), |input|)
  }

  /** Where `read_line` stops when it starts at `i`: just past the first
      newline, or at the end of the stream. */
  function LineEnd(input: seq<byte>, i: nat): (e: nat)
    requires i <= |input|
    ensures i <= e <= |input|
    ensures forall k :: i <= k < e - 1 ==> input[k] != NEWLINE
    ensures e == |input| || (e > i && input[e - 1] == NEWLINE)
    decreases |input| - i
  {
    if i == |input| then i
    else if input[i] == NEWLINE then i + 1
    else LineEnd(input, i + 1)
  }

  /** `read_line` at `pos`: the bytes up to and including the first newline
      (or up to the end of the stream), which must be UTF-8. */
  function LineAt(input: seq<byte>, pos: nat): (r: Read<seq<byte>>)
    requires pos <= |input|
    ensures r.next == LineEnd(input, pos)
    ensures r.result.Ok? <==> ValidUtf8(input[pos..r.next])
    ensures r.result.Ok? ==> r.result.value == input[pos..r.next]
    ensures r.result.Err? ==> r.result.error == InvalidData
  {
    var e := LineEnd(input, pos);
    var line := input[pos..e];
    Read(if ValidUtf8(line) then Ok(line) else Err(InvalidData), e)
  }

  /** `read_message`'s two reads, without the decoding: an eight-byte
      big-endian length, then that many bytes. A negative length is an error
      here; the source does not check the sign (see FrameAtAsWritten). */
  function FrameAt(input: seq<byte>, pos: nat): (r: Read<seq<byte>>)
    requires pos <= |input|
    ensures pos <= r.next <= |input|
    ensures r.result.Ok? ==>
      pos + 8 <= |input| && r.next == pos + 8 + |r.result.value| &&
      FromBeBytes(input[pos..pos + 8]) == |r.result.value| && r.result.value == input[pos + 8..r.next]
    ensures r.result.Err? ==> r.result.error == UnexpectedEof || r.result.error.NegativeLength?
  {
    var header := ReadExactAt(input, pos, 8);
    if header.result.Err? then Read(Err(header.result.error), header.next)
    else
      var len := FromBeBytes(header.result.value);
      if len < 0 then Read(Err(NegativeLength(len)), header.next)
      else ReadExactAt(input, header.next, len)
  }

  /** The outcome of code that may panic instead of returning. */
  datatype Outcome<T> = Returned(read: Read<T>) | Panicked(message: string)

  const CAPACITY_OVERFLOW: string := "capacity overflow"

  /** `read_message`'s two reads as the source writes them: the declared
      length is cast to `usize` with no sign check, and `vec![0u8; n]` panics
      when `n` exceeds `isize::MAX`. It panics exactly on a negative length. */
  function FrameAtAsWritten(input: seq<byte>, pos: nat): (o: Outcome<seq<byte>>)
    requires pos <= |input|
    ensures o.Panicked? <==> pos + 8 <= |input| && FromBeBytes(input[pos..pos + 8]) < 0
  {
    var header := ReadExactAt(input, pos, 8);
    if header.result.Err? then Returned(Read(Err(header.result.error), header.next))
    else
      var n := AsUsize(FromBeBytes(header.result.value));
      if n > ISIZE_MAX then Panicked(CAPACITY_OVERFLOW)
      else Returned(ReadExactAt(input, header.next, n))
  }

  /** `read_message::<T>`: one frame, decoded as a `T`. */
  function MessageAt<T>(input: seq<byte>, pos: nat, decode: Decoder<T>): (r: Read<T>)
    requires pos <= |input|
    ensures pos <= r.next <= |input|
    ensures r.next == FrameAt(input, pos).next
    ensures FrameAt(input, pos).result.Err? ==> r.result == Err(FrameAt(input, pos).result.error)
  {
    var frame := FrameAt(input, pos);
    if frame.result.Err? then Read(Err(frame.result.error), frame.next)
    else Read(decode(frame.result.value), frame.next)
  }

  /** `response::<T>`: a status byte; 0 is followed by the result frame, any
      other value by a frame holding the server's error message. */
  function ResponseAt<T>(input: seq<byte>, pos: nat, decode: Decoder<T>, text: Decoder<string>): (r: Read<T>)
    requires pos <= |input|
    ensures pos <= r.next <= |input|
    ensures pos == |input| ==> r == Read(Err(UnexpectedEof), pos)
    ensures pos < |input| && input[pos] == STATUS_OK ==> r == MessageAt(input, pos + 1, decode)
    ensures pos < |input| && input[pos] != STATUS_OK ==>
      r.result.Err? && r.next == FrameAt(input, pos + 1).next
  {
    var status := ReadExactAt(input, pos, 1);
    if status.result.Err? then Read(Err(status.result.error), status.next)
    else if status.result.value[0] > STATUS_OK then
      var message := MessageAt(input, status.next, text);
      if message.result.Err? then Read(Err(message.result.error), message.next)
      else Read(Err(Other(message.result.value)), message.next)
    else MessageAt(input, status.next, decode)
  }

  /** A facade call once `request` has run: when the arguments could not be
      encoded the call fails with that error and reads nothing; otherwise it
      reads the response. */
  function CallAt<T>(payload: Result<seq<byte>>, input: seq<byte>, pos: nat, decode: Decoder<T>, text: Decoder<string>): (r: Read<T>)
    requires pos <= |input|
    ensures pos <= r.next <= |input|
    ensures payload.Err? ==> r == Read(Err(payload.error), pos)
    ensures r.result.Ok? ==> payload.Ok? && pos < |input| && input[pos] == STATUS_OK
  {
    if payload.Err? then Read(Err(payload.error), pos)
    else ResponseAt(input, pos, decode, text)
  }

  /** `read_handshake`: whether the line read equals the expected one. */
  function HandshakeReplyAt(input: seq<byte>, pos: nat, expected: seq<byte>): (r: Read<bool>)
    requires pos <= |input|
    ensures pos <= r.next <= |input| && r.next == LineEnd(input, pos)
    ensures r.result.Ok? <==> ValidUtf8(input[pos..r.next])
    ensures r.result == Ok(true) <==> ValidUtf8(input[pos..r.next]) && input[pos..r.next] == expected
    ensures r.result.Err? ==> r.result.error == InvalidData
  {
    var line := LineAt(input, pos);
    Read(if line.result.Ok? then Ok(line.result.value == expected) else Err(line.result.error), line.next)
  }

  const INVALID_HANDSHAKE: string := "Invalid handshake"

  /** The reading half of `do_handshake`: a mismatch becomes ConnectionRefused. */
  function HandshakeAt(input: seq<byte>, pos: nat, expected: seq<byte>): (r: Read<()>)
    requires pos <= |input|
    ensures pos <= r.next <= |input| && r.next == LineEnd(input, pos)
    ensures r.result.Ok? <==> ValidUtf8(input[pos..r.next]) && input[pos..r.next] == expected
    ensures r.result.Err? ==>
      r.result.error == InvalidData || r.result.error == ConnectionRefused(INVALID_HANDSHAKE)
  {
    var reply := HandshakeReplyAt(input, pos, expected);
    Read(if reply.result.Err? then Err(reply.result.error)
         else if reply.result.value then Ok(())
         else Err(ConnectionRefused(INVALID_HANDSHAKE)),
         reply.next)
  }

  // ---------------------------------------------------------------------
  // Framing

  /** A frame written by `write_message` is read back by `read_message`:
      the same payload, exactly 8 + |data| bytes consumed, the rest untouched. */
  lemma FrameRoundTrip(before: seq<byte>, data: seq<byte>, rest: seq<byte>)
    requires |data| < TWO_63
    ensures FrameAt(before + Frame(data) + rest, |before|) == Read(Ok(data), |before| + 8 + |data|)
  {
    var input := before + Frame(data) + rest;
    var f := Frame(data);
    assert input[|before|..|before| + 8] == f[..8];
    assert input[|before| + 8..|before| + 8 + |data|] == f[8..];
  }

  /** With an encoder and decoder that agree on `v`, `read_message` returns
      the very message `write_message` sent. */
  lemma MessageRoundTrip<T>(encode: Encoder<T>, decode: Decoder<T>, v: T, before: seq<byte>, rest: seq<byte>)
    requires encode(v).Ok? && |encode(v).value| < TWO_63
    requires decode(encode(v).value) == Ok(v)
    ensures var data := encode(v).value;
      MessageAt(before + Frame(data) + rest, |before|, decode) == Read(Ok(v), |before| + 8 + |data|)
  {
    FrameRoundTrip(before, encode(v).value, rest);
  }

  /** `read_message` fails exactly when fewer than 8 bytes remain, when the
      declared length is negative, or when fewer bytes than declared remain. */
  lemma FrameFailsIff(input: seq<byte>, pos: nat)
    requires pos <= |input|
    ensures FrameAt(input, pos).result.Err? <==>
      (|input| - pos < 8 ||
       FromBeBytes(input[pos..pos + 8]) < 0 ||
       |input| - pos - 8 < FromBeBytes(input[pos..pos + 8]))
    ensures FrameAt(input, pos).result.Err? && |input| - pos >= 8 && FromBeBytes(input[pos..pos + 8]) >= 0 ==>
      FrameAt(input, pos) == Read(Err(UnexpectedEof), |input|)
  {
  }

  /** The sign check the source lacks: a header declaring a negative length
      makes `read_message` fail with an error, after consuming the header
      only. */
  lemma NegativeLengthRejected<T>(before: seq<byte>, len: i64, rest: seq<byte>, decode: Decoder<T>)
    requires len < 0
    ensures var input := before + ToBeBytes(len) + rest;
      FrameAt(input, |before|) == Read(Err(NegativeLength(len)), |before| + 8) &&
      MessageAt(input, |before|, decode) == Read(Err(NegativeLength(len)), |before| + 8)
  {
    var input := before + ToBeBytes(len) + rest;
    assert input[|before|..|before| + 8] == ToBeBytes(len);
    FromToBeBytes(len);
  }

  /** The source and the corrected read agree except on a negative length,
      where the source panics and the corrected read returns an error. */
  lemma FrameAtAsWrittenDiffers(input: seq<byte>, pos: nat)
    requires pos <= |input|
    ensures FrameAtAsWritten(input, pos).Panicked? <==> FrameAt(input, pos).result.Err? && FrameAt(input, pos).result.error.NegativeLength?
    ensures FrameAtAsWritten(input, pos).Returned? ==> FrameAtAsWritten(input, pos).read == FrameAt(input, pos)
  {
  }

  /** The header `ff` x 8 makes the source panic, while the corrected read
      fails with `NegativeLength(-1)` after the header. */
  lemma AllOnesHeaderPanics(before: seq<byte>, rest: seq<byte>)
    ensures var input := before + [0xFF, 0xFF, 0xFF, 0xFF, 0xFF, 0xFF, 0xFF, 0xFF] + rest;
      FrameAtAsWritten(input, |before|) == Panicked(CAPACITY_OVERFLOW) &&
      FrameAt(input, |before|) == Read(Err(NegativeLength(-1)), |before| + 8)
  {
    var header: seq<byte> := [0xFF, 0xFF, 0xFF, 0xFF, 0xFF, 0xFF, 0xFF, 0xFF];
    var input := before + header + rest;
    assert input[|before|..|before| + 8] == header;
    AllOnesHeaderCastsToUsizeMax();
  }

  // ---------------------------------------------------------------------
  // Responses

  /** Status 0 followed by a frame: the response is that frame decoded as the
      expected type. */
  lemma ResponseOk<T>(before: seq<byte>, data: seq<byte>, rest: seq<byte>, decode: Decoder<T>, text: Decoder<string>)
    requires |data| < TWO_63
    ensures ResponseAt(before + [STATUS_OK] + Frame(data) + rest, |before|, decode, text)
      == Read(decode(data), |before| + 9 + |data|)
  {
    var input := before + [STATUS_OK] + Frame(data) + rest;
    assert input == (before + [STATUS_OK]) + Frame(data) + rest;
    FrameRoundTrip(before + [STATUS_OK], data, rest);
  }

  /** Any other status followed by a frame: the response is the `Other` error
      carrying the decoded message, or the decoding error; never a value. */
  lemma ResponseFailure<T>(before: seq<byte>, status: byte, data: seq<byte>, rest: seq<byte>, decode: Decoder<T>, text: Decoder<string>)
    requires status != STATUS_OK && |data| < TWO_63
    ensures ResponseAt(before + [status] + Frame(data) + rest, |before|, decode, text)
      == Read(if text(data).Ok? then Err(Other(text(data).value)) else Err(text(data).error), |before| + 9 + |data|)
  {
    var input := before + [status] + Frame(data) + rest;
    assert input == (before + [status]) + Frame(data) + rest;
    FrameRoundTrip(before + [status], data, rest);
  }

  /** Whatever follows it, a non-zero status byte never yields a value. */
  lemma ErrorStatusNeverSucceeds<T>(input: seq<byte>, pos: nat, decode: Decoder<T>, text: Decoder<string>)
    requires pos < |input| && input[pos] != STATUS_OK
    ensures ResponseAt(input, pos, decode, text).result.Err?
  {
  }

  /** Both branches of `response` consume exactly one status byte and one
      frame, whatever the decoders make of the payload, so the next response
      starts right after it. */
  lemma ResponseConsumesOneFrame<T>(before: seq<byte>, status: byte, data: seq<byte>, rest: seq<byte>, decode: Decoder<T>, text: Decoder<string>)
    requires |data| < TWO_63
    ensures ResponseAt(before + [status] + Frame(data) + rest, |before|, decode, text).next == |before| + 9 + |data|
  {
    if status == STATUS_OK {
      ResponseOk(before, data, rest, decode, text);
    } else {
      ResponseFailure(before, status, data, rest, decode, text);
    }
  }

  /** One full cycle: a server that answers status 0 and the encoding of `v`
      makes the call return `v`. */
  lemma CallReturnsServerValue<T>(payload: seq<byte>, before: seq<byte>, v: T, encode: Encoder<T>, decode: Decoder<T>, rest: seq<byte>, text: Decoder<string>)
    requires encode(v).Ok? && |encode(v).value| < TWO_63
    requires decode(encode(v).value) == Ok(v)
    ensures var data := encode(v).value;
      CallAt(Ok(payload), before + [STATUS_OK] + Frame(data) + rest, |before|, decode, text)
        == Read(Ok(v), |before| + 9 + |data|)
  {
    ResponseOk(before, encode(v).value, rest, decode, text);
  }

  // ---------------------------------------------------------------------
  // Commands and the handshake

  /** What `request` writes parses back on the server side: a command name
      without '\n' is ended by the first newline, and one frame holding the
      encoded arguments follows it, after which the next request starts. */
  lemma RequestRoundTrip(command: string, data: seq<byte>, rest: seq<byte>)
    requires forall i :: 0 <= i < |command| ==> command[i] != '\n'
    requires |data| < TWO_63
    ensures var input := RequestBytes(command, Ok(data)) + rest;
      var lineEnd := |CommandLine(command)|;
      LineEnd(input, 0) == lineEnd && input[..lineEnd] == CommandLine(command) &&
      FrameAt(input, lineEnd) == Read(Ok(data), lineEnd + 8 + |data|) &&
      lineEnd + 8 + |data| == |RequestBytes(command, Ok(data))|
  {
    var line := CommandLine(command);
    var input := RequestBytes(command, Ok(data)) + rest;
    assert input == line + Frame(data) + rest;
    EncodeUtf8NoNewline(command);
    forall k | 0 <= k < |line| - 1 ensures input[k] != NEWLINE {
      assert input[k] == EncodeUtf8(command)[k];
    }
    LineEndAtFirstNewline(input, 0, |line| - 1);
    FrameRoundTrip(line, data, rest);
  }

  /** `read_line` from `i` stops right after the newline at `j` when nothing
      between `i` and `j` is a newline. */
  lemma {:induction false} LineEndAtFirstNewline(input: seq<byte>, i: nat, j: nat)
    requires i <= j < |input| && input[j] == NEWLINE
    requires forall k :: i <= k < j ==> input[k] != NEWLINE
    ensures LineEnd(input, i) == j + 1
    decreases j - i
  {
    if i < j {
      LineEndAtFirstNewline(input, i + 1, j);
    }
  }

  /** The handshake line holds exactly one newline, its last byte, and is
      ASCII text, hence valid UTF-8. */
  lemma HandshakeLineShape(digest: seq<byte>)
    ensures var line := HandshakeLine(digest);
      line[|line| - 1] == NEWLINE &&
      (forall k :: 0 <= k < |line| - 1 ==> line[k] != NEWLINE) &&
      (forall k :: 0 <= k < |line| ==> line[k] < 0x80) &&
      ValidUtf8(line)
  {
    var line := HandshakeLine(digest);
    AsciiIsValidUtf8(line);
  }

  /** The handshake succeeds exactly when the peer's bytes start with the
      expected line; it then consumes that line and nothing more. */
  lemma HandshakeAcceptsIff(input: seq<byte>, pos: nat, digest: seq<byte>)
    requires pos <= |input|
    ensures var line := HandshakeLine(digest);
      HandshakeAt(input, pos, line).result.Ok? <==>
        (pos + |line| <= |input| && input[pos..pos + |line|] == line)
    ensures var line := HandshakeLine(digest);
      HandshakeAt(input, pos, line).result.Ok? ==> HandshakeAt(input, pos, line).next == pos + |line|
  {
    var line := HandshakeLine(digest);
    HandshakeLineShape(digest);
    if pos + |line| <= |input| && input[pos..pos + |line|] == line {
      forall k | pos <= k < pos + |line| - 1 ensures input[k] != NEWLINE {
        assert input[k] == line[k - pos];
      }
      LineEndAtFirstNewline(input, pos, pos + |line| - 1);
    }
  }

  /** A peer answering with the line of a different digest is refused. */
  lemma HandshakeRejectsOtherDigest(before: seq<byte>, ours: seq<byte>, theirs: seq<byte>, rest: seq<byte>)
    requires ours != theirs
    ensures var input := before + HandshakeLine(theirs) + rest;
      HandshakeAt(input, |before|, HandshakeLine(ours)).result == Err(ConnectionRefused(INVALID_HANDSHAKE))
  {
    var input := before + HandshakeLine(theirs) + rest;
    var line := HandshakeLine(theirs);
    HandshakeLineShape(theirs);
    forall k | |before| <= k < |before| + |line| - 1 ensures input[k] != NEWLINE {
      assert input[k] == line[k - |before|];
    }
    LineEndAtFirstNewline(input, |before|, |before| + |line| - 1);
    assert input[|before|..|before| + |line|] == line;
    if line == HandshakeLine(ours) {
      assert LowerHex(theirs) == line[..|line| - 1] == LowerHex(ours);
      LowerHexInjective(theirs, ours);
    }
  }

  /** A line cut short by the end of the stream, before its newline, is
      refused (or rejected as non-UTF-8), never accepted. */
  lemma HandshakeRejectsTruncatedLine(input: seq<byte>, pos: nat, digest: seq<byte>)
    requires pos <= |input|
    requires forall k :: pos <= k < |input| ==> input[k] != NEWLINE
    ensures HandshakeAt(input, pos, HandshakeLine(digest)).result.Err?
  {
    HandshakeLineShape(digest);
    assert LineEnd(input, pos) == |input|;
  }
}
