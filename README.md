# irmin-rs client protocol engine, in Dafny

This project models the client side of the irmin-server wire protocol as
implemented in `src/client.rs` of irmin-rs, and proves properties of that model.

The client owns one buffered socket. Over it, the client:

- **handshakes**: writes the lower-case hex Blake2b digest of the string `"V1"` followed by a
  newline, then reads the peer's line and fails unless it is the same line: `ConnectionRefused`
  ("Invalid handshake") on a mismatch, or `InvalidData` when the line is not UTF-8;
- **frames** every message as an 8-byte big-endian `i64` length followed by that many bytes of
  `encode_bin` output;
- **dispatches** a command as its name, a `\n`, then one frame of the encoded argument tuple, and
  reads the reply as one status byte: 0 followed by a frame of the result, or anything else
  followed by a frame holding an error string, which becomes an `Other` error;
- exposes a **typed facade** (`ping`, the current branch, `Store::*`, `Commit::*`, `Tree::*`).
  Each facade call maps to one exact command name and one argument tuple.

Files:

- `bytes.dfy` (module `Bytes`): Rust's `i64::to_be_bytes`/`from_be_bytes`, the `usize`/`i64`
  casts, `{:x}` hex rendering, UTF-8 encoding (`str::as_bytes`) and the UTF-8 check of
  `read_line`.
- `wire.dfy` (modules `Errors`, `Wire`): the I/O error kinds and `Result`. It also holds the
  protocol as pure functions of the peer's bytes and a read position (`FrameAt`, `ResponseAt`,
  `HandshakeAt`, ...) and of what the client writes (`Frame`, `RequestBytes`, `HandshakeLine`),
  with the round-trip, failure and alignment lemmas.
- `stream.dfy` (module `Stream`): the tokio `BufStream` as a class. It holds the bytes written,
  a flushed prefix, the peer's bytes and a read cursor, with `write_all`, `write_u8`, `flush`,
  `read_exact` and `read_line`.
- `client.dfy` (module `IrminClient`): the `Client` and `Store` classes and the `Commit`/`Tree`
  operations. Every method is proved against the functions of `Wire`.

The socket is modelled as the bytes the client writes plus the bytes the peer sends before
closing. The codec is not part of this model. The `Type` implementations that Rust picks for
each argument tuple and result type are passed in as an `Encoder` and a `Decoder`. Lemmas that
need decoding to undo encoding take that as a precondition for the value at hand. Blake2b is a
function-valued field of the client.

Later irmin-server revisions digest a caller-supplied content-type name. This file digests the
fixed string `"V1"` (src/client.rs:24, 29 and 39), and the model follows it.

## Model

| member | source | states |
|---|---|---|
| `Bytes.ToBeBytes` | src/client.rs:63 | `to_be_bytes` gives 8 bytes which, read as an unsigned big-endian number, are x for x >= 0 and x + 2^64 otherwise (two's complement) |
| `Bytes.FromBeBytes` | src/client.rs:73 | `from_be_bytes` gives the `i64` whose two's-complement reading is the unsigned big-endian value of the bytes (x, or x + 2^64 when negative), and every 8-byte header is the `to_be_bytes` of the length read from it |
| `Bytes.FromToBeBytes` | src/client.rs:73 | `i64::from_be_bytes` recovers every `i64` from the bytes `to_be_bytes` gives it (line 63) |
| `Bytes.LenAsI64` | src/client.rs:62 | `data.len() as i64` keeps the low 64 bits; below 2^63 it is the length itself |
| `Bytes.AsUsize` | src/client.rs:74 | `len as usize` reads the same 64 bits unsigned: below 2^64, congruent to len modulo 2^64, and a non-negative length is unchanged |
| `Bytes.NegativeLengthOverflowsCapacity` | src/client.rs:74 | as written, every negative declared length becomes a capacity above `isize::MAX` |
| `Bytes.AllOnesHeaderCastsToUsizeMax` | src/client.rs:73-74 | the header `ff` x 8 declares -1, which the cast turns into `usize::MAX`, above `isize::MAX` |
| `Bytes.LowerHex` | src/client.rs:29 | the `{:x}` rendering of a digest has two characters per byte, all of them lower-case hex digits |
| `Bytes.LowerHexInjective` | src/client.rs:29 | two different digests never render to the same text |
| `Bytes.EncodeUtf8` | src/client.rs:81 | `as_bytes` gives one to four bytes per character |
| `Bytes.ValidUtf8` | src/client.rs:38 | what `read_line` accepts as UTF-8 never holds the bytes 0xC0, 0xC1 or 0xF5 to 0xFF |
| `Bytes.EncodeUtf8Valid` | src/client.rs:81 | the bytes of a command name are well-formed UTF-8 |
| `Bytes.EncodeUtf8NoNewline` | src/client.rs:81 | a command name without '\n' contains no newline byte |
| `Wire.Frame` | src/client.rs:60-64 | a frame is 8 + len bytes: a header that reads back as len, then the payload |
| `Wire.RequestBytes` | src/client.rs:79-86 | `request` writes the command's bytes, one newline, then the frame of the encoded arguments, or nothing more when encoding fails |
| `Wire.HandshakeLine` | src/client.rs:29 | the handshake line is two hex digits per digest byte, then a newline as its last byte |
| `Wire.ReadExactAt` | src/client.rs:72 | `read_exact` of n bytes succeeds iff n bytes remain, and then consumes exactly n |
| `Wire.LineEnd` | src/client.rs:38 | `read_line` stops just past the first newline, or at the end of the stream |
| `Wire.LineAt` | src/client.rs:38 | `read_line` consumes up to and including the first newline (or to the end of the stream), returns exactly those bytes when they are UTF-8, and fails with `InvalidData` otherwise |
| `Wire.FrameAt` | src/client.rs:71-75 | reading a frame, when it succeeds, consumes 8 + len bytes and returns the len bytes after a header that reads as len; its only errors are end of stream and a negative length |
| `Wire.FrameAtAsWritten` | src/client.rs:71-75 | as written, reading a frame panics exactly when 8 header bytes are present and declare a negative length |
| `Wire.FrameAtAsWrittenDiffers` | src/client.rs:73-74 | the source and the corrected read agree everywhere except on a negative length, where the source panics and the corrected read fails with `NegativeLength` |
| `Wire.AllOnesHeaderPanics` | src/client.rs:73-74 | the header `ff` x 8 makes the source panic with "capacity overflow", while the corrected read fails with `NegativeLength(-1)` after the header |
| `Wire.MessageAt` | src/client.rs:70-77 | `read_message` consumes exactly one frame whatever the decoder makes of it, and passes a framing error on unchanged |
| `Wire.ResponseAt` | src/client.rs:88-99 | `response` fails at the end of the stream; status 0 reads the result frame; any other status reads one frame and never yields a value |
| `Wire.CallAt` | src/client.rs:165-168 | a facade call yields a value only when its arguments were encoded and the server answered status 0; an encoding error reads nothing |
| `Wire.HandshakeReplyAt` | src/client.rs:35-41 | `read_handshake` consumes one line and answers true exactly when that line is UTF-8 and equals the expected one |
| `Wire.HandshakeAt` | src/client.rs:43-53 | the handshake succeeds exactly when the line read equals the expected one; it otherwise fails with `InvalidData` or `ConnectionRefused("Invalid handshake")` |
| `Wire.FrameRoundTrip` | src/client.rs:71-75 | reading a frame written by `write_message` yields its payload and consumes exactly 8 + len bytes, leaving the rest |
| `Wire.MessageRoundTrip` | src/client.rs:60-76 | when decoding undoes encoding for v, `read_message` returns the v that `write_message` sent |
| `Wire.FrameFailsIff` | src/client.rs:71-75 | reading a frame fails iff fewer than 8 bytes remain, the length is negative, or fewer than len bytes remain; a short payload is `UnexpectedEof` |
| `Wire.NegativeLengthRejected` | src/client.rs:73-74 | corrected: a negative declared length is an error after the 8 header bytes |
| `Wire.ResponseOk` | src/client.rs:96-97 | status 0 then a frame: the response is the frame decoded as the expected type |
| `Wire.ResponseFailure` | src/client.rs:93-95 | a non-zero status then a frame: the response is `Other` with the decoded message, or the decoding error |
| `Wire.ErrorStatusNeverSucceeds` | src/client.rs:93-95 | a non-zero status byte never yields a value, whatever follows |
| `Wire.ResponseConsumesOneFrame` | src/client.rs:91-98 | both branches consume exactly one status byte and one frame, so the next response starts right after |
| `Wire.CallReturnsServerValue` | src/client.rs:88-99 | a server answering 0 and the encoding of v makes the call return v |
| `Wire.RequestRoundTrip` | src/client.rs:79-86 | the request parses back as the command line, ended by its only newline, then one frame of the arguments, then nothing else |
| `Wire.HandshakeLineShape` | src/client.rs:29 | the handshake line is ASCII (every byte below 0x80), hence valid UTF-8, with exactly one newline, its last byte |
| `Wire.HandshakeAcceptsIff` | src/client.rs:35-53 | the handshake succeeds iff the peer's bytes start with the expected line, and then consumes exactly that line |
| `Wire.HandshakeRejectsOtherDigest` | src/client.rs:43-53 | a peer sending the line of a different digest is refused with `ConnectionRefused` |
| `Wire.HandshakeRejectsTruncatedLine` | src/client.rs:38-40 | a line cut short by the end of the stream is never accepted |
| `Stream.BufStream.WriteAll` | src/client.rs:30 | `write_all` appends the bytes to what was written |
| `Stream.BufStream.WriteU8` | src/client.rs:82 | `write_u8` appends one byte |
| `Stream.BufStream.Flush` | src/client.rs:31 | `flush` makes everything written so far reach the socket |
| `Stream.BufStream.ReadExact` | src/client.rs:72 | `read_exact` behaves as `Wire.ReadExactAt` |
| `Stream.BufStream.ReadLine` | src/client.rs:38 | `read_line` (a scanning loop) behaves as `Wire.LineAt` |
| `IrminClient.Client.constructor` | src/client.rs:138-141 | a client over a connected stream, with its digest and string codec |
| `IrminClient.Client.Fingerprint` | src/client.rs:29 | the line both peers send is the handshake line of the digest of the bytes `56 31` ("V1") |
| `IrminClient.Client.WriteHandshake` | src/client.rs:27-33 | appends the hex digest of "V1" and a newline, and flushes |
| `IrminClient.Client.ReadHandshake` | src/client.rs:35-41 | reads one line and reports whether it equals the expected line |
| `IrminClient.Client.DoHandshake` | src/client.rs:43-53 | writes the line first, then fails with `ConnectionRefused` on a mismatch |
| `IrminClient.Client.New` | src/client.rs:135-143 | the client is returned only when the handshake succeeds |
| `IrminClient.Client.WriteMessage` | src/client.rs:55-68 | appends exactly one frame of the encoded message and flushes; an encoding error writes nothing |
| `IrminClient.Client.ReadMessage` | src/client.rs:70-77 | reads one frame and decodes it, as `Wire.MessageAt` |
| `IrminClient.Client.Request` | src/client.rs:79-86 | appends the command bytes, one newline, then one frame; after an encoding error only the unflushed command line |
| `IrminClient.Client.Response` | src/client.rs:88-99 | reads the status byte and one frame, as `Wire.ResponseAt` |
| `IrminClient.Client.Call` | src/client.rs:165-168 | `request` then `response`, the body of every facade method: output grows by the request bytes, and the result and read position are those of `Wire.CallAt` |
| `IrminClient.Client.Ping` | src/client.rs:108-112 | sends `ping` with `()`, expects `()` |
| `IrminClient.Client.Store` | src/client.rs:115-117 | a `Store` view of this client |
| `IrminClient.Client.SetCurrentBranch` | src/client.rs:120-124 | sends `set_current_branch` with the branch name, expects `()` |
| `IrminClient.Client.GetCurrentBranch` | src/client.rs:127-130 | sends `get_current_branch` with `()`, expects a string |
| `IrminClient.Store.Set` | src/client.rs:165-168 | sends `store.set` with (key, info, value), expects `()` |
| `IrminClient.Store.SetTree` | src/client.rs:171-181 | sends `store.set_tree` with (key, info, tree), expects `()` |
| `IrminClient.Store.Find` | src/client.rs:184-187 | sends `store.find` with the key, expects an optional value |
| `IrminClient.Store.FindTree` | src/client.rs:190-193 | sends `store.find_tree` with the key, expects an optional tree |
| `IrminClient.Store.Mem` | src/client.rs:196-199 | sends `store.mem` with the key, expects a bool |
| `IrminClient.Store.MemTree` | src/client.rs:202-205 | sends `store.mem_tree` with the key, expects a bool |
| `IrminClient.Store.Remove` | src/client.rs:208-211 | sends `store.remove` with (key, info), expects `()` |
| `IrminClient.CommitCreate` | src/client.rs:216-225 | sends `commit.v` with (info, parents, node), expects a commit |
| `IrminClient.CommitOfHash` | src/client.rs:227-233 | sends `commit.of_hash` with the hash, expects an optional commit |
| `IrminClient.TreeAdd` | src/client.rs:238-246 | sends `tree.add` with (tree, key, value), expects a new tree |
| `IrminClient.TreeAddTree` | src/client.rs:249-257 | sends `tree.add_tree` with (tree, key, subtree), expects a new tree |
| `IrminClient.TreeRemove` | src/client.rs:260-267 | sends `tree.remove` with (tree, key), expects a new tree |
| `IrminClient.TreeFind` | src/client.rs:270-277 | sends `tree.find` with (tree, key), expects an optional value |
| `IrminClient.TreeFindTree` | src/client.rs:280-287 | sends `tree.find_tree` with (tree, key), expects an optional tree |
| `IrminClient.TreeMem` | src/client.rs:290-297 | sends `tree.mem` with (tree, key), expects a bool |
| `IrminClient.TreeMemTree` | src/client.rs:300-307 | sends `tree.mem_tree` with (tree, key), expects a bool |

Every facade method ensures `Dispatched`. It says the connection's output grows by exactly
`RequestBytes(command, encode(args))`, and the result and read position are those of
`Wire.CallAt`. `CallAt` is the response read when the arguments could be encoded, and the
encoding error otherwise.

## Left out

- src/bindings/mod.rs: it forwards calls to an OCaml runtime through FFI, so its behaviour is not visible in Rust.
- Opening and closing the socket (`TcpStream::connect`, `UnixStream::connect`, `close`/`shutdown`, src/client.rs:102-105, 136, 150) is operating-system I/O. The model starts from a connected stream.
- Write-side I/O failures (broken pipe, reset) are not modelled: `write_all`, `write_u8` and `flush` always succeed. On the read side, the only transport failure modelled is the end of the stream.
- The `BufStream` buffer capacity is not modelled. `flushed` counts only what `flush` has pushed, while a real buffer may also drain earlier when it fills.
- Blake2b is a function-valued field (`blake2b`) because its internals are a foreign library. The hex rendering is modelled.
- `encode_bin`/`decode_bin` are defined outside this file; they are function-valued parameters. That decoding undoes encoding is never assumed globally: lemmas that need it take it as a precondition for the value at hand.
- Async suspension and the `RefCell::borrow_mut` re-entrancy panics concern scheduling, not bytes. Each method runs to completion on its own.
- `vec![0u8; len]` for a huge non-negative length may abort on allocation failure. Memory is not modelled.
- The `Contents` type parameter of `Client` is a phantom type with no behaviour.
- What the server does with the commands (find after set, tree edits that leave the old tree unchanged, the test at src/client.rs:320-366) is server behaviour. The client makes no such promise.
- IrminClient.Client.ReadMessage: reports a negative declared length as `NegativeLength` where the source panics; see Findings.
- Wire.FrameAt: reports a negative declared length as `NegativeLength` where the source panics (`Wire.FrameAtAsWritten`); see Findings.
- Wire.FrameFailsIff: counts a negative declared length among the failures, where the source panics; see Findings.

## Findings

| source | as written | input that shows it | evidently intended | confidence | as-written member | corrected member |
|---|---|---|---|---|---|---|
| src/client.rs:73-74 | the declared `i64` length is cast `as usize` with no sign check, so a negative length asks `vec!` for more than `isize::MAX` bytes, which panics ("capacity overflow") instead of returning an I/O error | the frame header `ff ff ff ff ff ff ff ff` (length -1) | a negative length fails the read with an error | not executed; high | `Wire.AllOnesHeaderPanics` | `Wire.NegativeLengthRejected` |
