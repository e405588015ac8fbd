# unxip-rs PBZX reader, modelled in Dafny

`unxip-rs` unpacks Apple `.xip` archives. A `.xip` is a XAR container whose
`Content` file is a PBZX stream: the magic `pbzx`, a big-endian 64-bit flags
word, then chunks. Each chunk has a 16-byte header (flags, then payload size,
both big-endian u64) followed by its payload. A 16 MiB payload is stored raw;
any other payload must be an XZ stream. Bit 24 of the flags says whether
another chunk follows. `XipReader` decodes this stream lazily behind
`std::io::Read`, and `unxip` pipes it through `io::copy` into `cpio`.

This project models that reader and proves what it produces.

- `bytes.dfy`, module `Errors`: the error kinds the reader raises.
- `bytes.dfy`, module `Bytes`: bytes, u64 words and big-endian encoding (`u64::from_be_bytes`), with round-trip lemmas.
- `codec.dfy`, module `Codec`: the per-chunk decoder (`Cursor` or `XzDecoder` behind `Box<dyn Read>`) as a value, `Producer`. Also the choice between raw and XZ (`Decode`). It also defines `Outcome`: the bytes a reader will still produce, and how it ends.
- `framing.dfy`, module `Framing`: the stream header, chunk headers and the continuation rule. `ChunksFrom` is a declarative definition of everything a reader produces from a chunk boundary.
- `machine.dfy`, module `Machine`: the reader's fields as a value `State`. `LoadStep` is `load_next_chunk`, `Drain`/`ReadStep` is `read`, and `Future` is what a reader in a given state will still produce. The lemmas say what one `read` yields.
- `reader.dfy`, module `Reader`: the `XipReader` class with mutable fields. `LoadNextChunk` and `Read` are imperative methods (a pull loop) proved equal to the `Machine` functions.
- `frames.dfy`, module `Frames`: an encoder for PBZX streams and the round trip. A reader opened on an encoded stream produces exactly the frames' outputs in order.
- `unxip.dfy`, module `Unxip`: `io::copy` over the reader, and extraction up to the hand-off to `cpio`. With any buffer size, the copied bytes are everything the stream produces.

The XZ decompressor is a parameter, `inflate: seq<byte> -> Inflated`. It
gives the bytes an XZ payload decodes to, and whether decoding ends cleanly.
The source (`r`, positioned at the `Content` data) is a byte sequence with a
cursor.

## Model

| member | source | states |
|---|---|---|
| `Bytes.U64ToBe` | src/reader.rs:63-64 | a word's big-endian form is exactly 8 bytes |
| `Bytes.BeValueBound` | src/reader.rs:41 | n big-endian bytes denote a value below 256^n |
| `Bytes.BeValueAppend` | src/reader.rs:63-64 | the value of a concatenation is the high part scaled by 256 to the power of the low part's length, plus the low part |
| `Bytes.BeValueOfBeBytes` | src/reader.rs:41 | encoding a value that fits in n bytes and reading it back gives the value |
| `Bytes.BeBytesOfBeValue` | src/reader.rs:41 | reading n bytes and encoding the value at width n gives the bytes back |
| `Bytes.U64FromToBe` | src/reader.rs:41 | `from_be_bytes(to_be_bytes(v)) == v` |
| `Bytes.U64ToFromBe` | src/reader.rs:63-64 | `to_be_bytes(from_be_bytes(bs)) == bs` for every 8 bytes |
| `Bytes.U64FromBeHorner` | src/reader.rs:41 | `Bytes.U64FromBe`, the model of `u64::from_be_bytes`, weighs the first byte most: the value is the eight bytes in Horner form, base 256 |
| `Bytes.U64ToBeInjective` | src/reader.rs:41 | two words with the same big-endian bytes are equal |
| `Codec.Pull` | src/reader.rs:89-90 | a read on the chunk decoder yields at most the buffer's room, taken from the front of its pending bytes. It yields something whenever bytes are pending and there is room. It fails with `CorruptData` exactly when the buffer is non-empty and a failed XZ decoder has nothing left to give |
| `Codec.PullTakesFront` | src/reader.rs:89-93 | bytes a decoder yields are the front of what it and every later chunk still produce; the rest is left |
| `Codec.PullEmptyMeansDrained` | src/reader.rs:89-95 | a zero-byte read into a non-empty buffer means the chunk is exhausted and ended cleanly, so dropping it loses nothing |
| `Codec.Decode` | src/reader.rs:70-78 | a 16 MiB payload is passed through raw. Any other payload succeeds if and only if it starts with FD 37 7A 58 5A 00; it then yields what XZ decoding gives. Otherwise the load fails with `BadLzmaMagic`, or `PayloadTooShort` below 6 bytes |
| `Framing.ContinuesIsBit24` | src/reader.rs:54 | `Framing.Continues`, the test `flags & (1 << 24) != 0`, holds exactly when the flags modulo 2^25 are at least 2^24 |
| `Framing.ContinuationBitInFifthByte` | src/reader.rs:54 | `flags & (1 << 24)` is the low bit of the fifth big-endian flag byte |
| `Framing.ParseHeader` | src/reader.rs:33-41 | `new` succeeds if and only if there are 12 bytes starting with `pbzx`. The flags read are the big-endian word of bytes 4..12. A short source is a short read; a wrong magic is `BadPbzxMagic` |
| `Framing.ChunkHeaderOfEncoding` | src/reader.rs:58-64 | the flags and size words that `Framing.ChunkHeaderOf` reads are exactly the big-endian reading of the 16 header bytes: encoding them again gives those bytes |
| `Framing.ChunkHeaderAt` | src/reader.rs:58-64 | a chunk header is read if and only if 16 bytes remain, and it is the flags and size words of the 16 bytes at the cursor. Otherwise the load fails with a short read |
| `Framing.ChunkAt` | src/reader.rs:58-78 | a loaded chunk has the flags of the header at the cursor, and its payload ends `size` bytes after that header, within the source. Its decoder is the codec's choice for exactly the payload bytes |
| `Framing.ChunkAtCases` | src/reader.rs:58-78 | a chunk loads exactly when its header and payload are there and the codec accepts the payload. A short header or a short payload is a short read; a payload the codec rejects fails with the codec's error |
| `Machine.LoadStep` | src/reader.rs:53-80 | the continuation rule (`Framing.AtEnd`) ends the stream without reading the source. Any other successful load consumes at least a 16-byte header and keeps the cursor equal to the counter. A failed load leaves the decoder alone. No load lowers the counter |
| `Machine.HeaderOnlyStreamIsEmpty` | src/reader.rs:43-56 | when the stream header already stops the reader (bit 24 of its flags is clear, or the content length is at most 12), the first `read` returns 0, writes nothing and ends the stream with the cursor still at 12: no chunk header is read, and the stream produces nothing |
| `Machine.LoadPayloadEffect` | src/reader.rs:66-79 | the payload half of a load: a short payload is a short read that consumes the rest of the source. Otherwise cursor and counter both advance by `size`, and the load succeeds exactly when the codec accepts the payload bytes, whose decoder becomes the active one. A rejected payload fails with the codec's error and leaves the decoder alone. Flags and `done` are untouched and the counter never goes down |
| `Machine.LoadStepLoadsChunk` | src/reader.rs:58-79 | past the continuation rule, a load installs the chunk at the cursor, with its flags and the cursor after its payload, or fails with that chunk's load error |
| `Machine.LoadStepKeepsFuture` | src/reader.rs:53-80 | between chunks a load changes nothing about what the reader will produce. It ends the stream only when nothing is left, and fails only where the next chunk cannot be loaded |
| `Machine.DrainShape` | src/reader.rs:88-109 | the pull loop (`Machine.Drain`) keeps the state valid and returns exactly the bytes it wrote, at most the buffer's length. It returns 0 only after ending the stream, and always 0 for an empty buffer. It never lowers the counter |
| `Machine.DrainFuture` | src/reader.rs:88-109 | the pull loop (`Machine.Drain`) yields the front of what the reader still produces and leaves the rest. It returns 0 exactly when nothing is left and no decoder failed. It fails only on a failed decoder, leaving what is left unchanged |
| `Machine.ReadStepShape` | src/reader.rs:84-110 | `read` (`Machine.ReadStep`) keeps the state valid, fills at most the buffer, returns 0 only once the stream is over, and changes nothing after that. It never lowers the counter |
| `Machine.ReadStepYields` | src/reader.rs:84-110 | into a non-empty buffer, `read` (`Machine.ReadStep`) yields the front of what the reader still produces and leaves the rest for later reads |
| `Machine.ActiveDecoderServesFirst` | src/reader.rs:89-93 | bytes the active decoder still holds are served without touching the source, the counter or the flags |
| `Machine.EmptyBufferEndsStream` | src/reader.rs:84-109 | a read into an empty buffer returns 0 and ends the stream |
| `Reader.CopyInto` | src/reader.rs:90 | the decoded bytes land at the front of the caller's buffer, and the rest of it is untouched |
| `Reader.ReadChunk` | src/reader.rs:89-90 | the decoder read fills the buffer with what `Pull` yields, and propagates its error |
| `Reader.XipReader.constructor` | src/reader.rs:43-50 | the new reader is in the initial state `Machine.Initial`: counter and cursor 12, no decoder, not done, and the flags read |
| `Reader.XipReader.ReadExact` | src/reader.rs:59-61 | `read_exact` returns the next n bytes, or fails with a short read that consumes the rest of the source |
| `Reader.XipReader.LoadNextChunk` | src/reader.rs:53-65 | the new fields and the result are exactly `LoadStep` of the old fields |
| `Reader.XipReader.LoadPayload` | src/reader.rs:66-79 | after the header, the new fields and result are exactly the payload half of `LoadStep` |
| `Reader.XipReader.Read` | src/reader.rs:84-110 | the new fields, the result and the bytes written equal `ReadStep`. So `read` keeps the reader valid and returns 0 only at the end of the stream. It returns 0 and changes nothing once done, and never lowers `content_read_size`. Into a non-empty buffer it yields the front of what is left |
| `Reader.Open` | src/reader.rs:33-50 | `new` fails exactly when the header does, with the header's error. Otherwise it gives a fresh reader in the initial state with the flags read |
| `Frames.EncodeFrame` | src/reader.rs:58-68 | an encoded frame is a 16-byte header followed by its payload |
| `Frames.EncodeStream` | src/reader.rs:33-41 | an encoded stream is the 12-byte header followed by its frames |
| `Frames.ExpectedAppend` | src/reader.rs:88-109 | the output of two frame sequences in a row is the first's output followed by the second's |
| `Frames.HeaderOfEncodedFrame` | src/reader.rs:58-64 | the header of an encoded frame reads back as its flags and its payload size |
| `Frames.ChunkAtEncodedFrame` | src/reader.rs:58-78 | the chunk load at an encoded frame yields that frame's flags, the cursor past it and its payload's decoder, or that payload's load error |
| `Frames.ChunksFromEncodedFrame` | src/reader.rs:53-80 | from an encoded frame, the reader produces the frame's output and then whatever follows from the boundary after it |
| `Frames.ChunksFromEncodedFrames` | src/reader.rs:53-80 | from a boundary where frames are encoded and the continuation rule stops after them, the reader produces exactly the frames' outputs in order |
| `Frames.ExactLengthLoadsAll` | src/reader.rs:54 | if the declared length is exactly the stream's and every frame but the last carries bit 24, the reader loads every frame and then stops |
| `Frames.LastFlagsStop` | src/reader.rs:54 | if the declared length leaves room and the last frame clears bit 24, the reader loads every frame and then stops |
| `Frames.ReadsEncodedStream` | src/reader.rs:33-80 | round trip: `new` on an encoded stream reads back its initial flags. The reader then produces exactly the frames' outputs, whatever bytes follow |
| `Frames.RawFramesConcatenate` | src/reader.rs:76-78 | a stream of 16 MiB raw frames yields the concatenation of their payloads and ends cleanly |
| `Frames.BadLzmaFrameTruncates` | src/reader.rs:70-73 | a compressed frame without the XZ signature ends the stream there as a load failure. Neither it nor any later frame contributes a byte |
| `Unxip.ReadFrom` | src/lib.rs:52 | what `io::copy` relies on from each `read`: a bounded count, 0 only at the end, and the front of what is left |
| `Unxip.YieldsConsumes` | src/lib.rs:52 | a read that yields bytes strictly shrinks what is left, so the copy loop terminates |
| `Unxip.Copy` | src/lib.rs:52 | for any buffer size, the copied bytes are everything the stream produces, and the copy succeeds. The copy fails, with `CorruptData`, exactly when a decoder fails |
| `Unxip.Extract` | src/lib.rs:36-53 | extraction gives the whole decoded stream. A bad header gives its error, and a failed decoder gives `CorruptData` |
| `Unxip.UnxipRawStream` | src/lib.rs:36-53 | extracting an encoded stream of raw frames gives the concatenation of their payloads, for any buffer size |
| `Unxip.UnxipSwallowsBadLzmaFrame` | src/lib.rs:36-53 | a compressed frame without the XZ signature does not fail extraction: the result is the output of the frames before it |

## Left out

- XAR parsing and seeking to the `Content` data (src/reader.rs:20-31) are not part of this model. The reader's source is the byte sequence from that position to the end of the file.
- XZ decompression (the `xz2` crate) is a parameter. It gives the bytes a payload decodes to and whether it ends cleanly. Its own decoding errors are one kind, `CorruptData`.
- `Codec.Pull`: a `Read` may return any count from 1 to the room available. The model's decoders always return as many bytes as fit, so the bytes written per call are one schedule of many. On streams where no decoder fails, everything about the concatenated output holds for every schedule.
- `Unxip.Copy`: a failing XZ decoder is modelled as delivering a fixed prefix of its output, whatever the buffer size, before it reports `CorruptData`. In the program, a `read` that fails reports no bytes, so output the decoder produced during that call is lost. How many bytes reach `cpio` before the error therefore depends on the buffer size. The model does not capture this, and `Unxip.Copy`'s `written` on its error path is that fixed prefix rather than the buffer-dependent amount.
- `Codec.Decode`: `&bytes[0..6]` on a payload shorter than 6 bytes panics in the source. The model turns this into a `PayloadTooShort` load failure, which `read` swallows like any other load failure.
- `vec![0u8; size as usize]` with a huge `size` aborts on allocation failure in the source. The model has no memory limit; such a chunk ends in a short read.
- `Reader.XipReader.ReadExact`: on a short read, the standard `read_exact` leaves unspecified how much it consumed. The model moves the cursor to the end of the source. After a failed load the reader is done, so this choice is never observed.
- The counters are unbounded. `content_read_size += size` cannot overflow in the model because the counter equals the cursor, which never passes the end of the source.
- `Box<dyn Read>` dispatch is the `Producer` datatype with one case per decoder.
- The error type is collapsed. `UnxipError::IoError`, `XarError` and `Misc` and the io::Error kinds become the five causes in `Errors.Error`, with no message text.
- `unxip` beyond the copy is I/O and is not modelled: probing for `cpio`, creating the output directory, spawning `cpio` and waiting for it (src/lib.rs:24-34, 38-62). `Unxip.Extract` returns the bytes that would be written to `cpio`'s stdin.
- `io::copy` retries reads interrupted by a signal. The model has no signals.
- `Unxip.ReadFrom` is not a separate function in the source. It is the `Read` trait contract that `io::copy` sees, and it calls `XipReader.Read` and nothing else.
- `Reader.XipReader.LoadPayload` is the second half of `load_next_chunk` (src/reader.rs:66-79), split into its own method. The split does not change behaviour.

## Behaviour worth knowing

These follow the code.

- Errors from loading a chunk are swallowed. A short chunk header or payload, or a compressed payload without the XZ signature, sets `done` and makes `read` return `Ok(0)`. The stream looks like it ended cleanly, and `io::copy` succeeds with the bytes produced so far. The model does the same (see `Machine.DrainFuture` and `Unxip.UnxipSwallowsBadLzmaFrame`).
- A `read` into an empty buffer is treated as a drained decoder. It drops the active chunk, loads and drops every later chunk, and ends the stream (`Machine.EmptyBufferEndsStream`). `io::copy` never passes an empty buffer, so `unxip` is unaffected.
- The stream also ends once the counter reaches the declared content length, even if the last chunk's flags still carry bit 24 (`Frames.ExactLengthLoadsAll`).
