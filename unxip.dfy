/** The driver: `io::copy` pulls every decoded byte out of the reader, as
    `unxip` does to feed the archive extractor. */
module Unxip {
  import opened Errors
  import opened Bytes
  import opened Codec
  import opened Framing
  import opened Machine
  import opened Frames
  import opened Reader

  /** What extraction hands to the archive extractor: the whole decoded
      stream, or the error that stopped it. Bytes written before a decoder
      error are not part of a successful result. */
  function Unxipped(src: seq<byte>, contentLength: u64, inflate: Inflater): Result<seq<byte>>
  {
    match ParseHeader(src)
    case Err(e) => Err(e)
    case Ok(flags) =>
      var out := Future(Input(src, contentLength, inflate), Initial(flags));
      if out.ending == DecodeFailed then Err(CorruptData) else Ok(out.bytes)
  }

  /** `Read::read` as `io::copy` sees it: the reader's promise about what it
      yields, without how it gets there. */
  method ReadFrom(reader: XipReader, buf: array<byte>) returns (n: Result<nat>)
    requires reader.Valid() && buf.Length > 0
    modifies reader, buf
    ensures reader.Valid()
    ensures n.Ok? ==> n.value <= buf.Length
    ensures n == Ok(0) ==> reader.done
    ensures Yields(old(reader.Future()), reader.Future(), n, if n.Ok? then buf[..n.value] else [])
  {
    n := reader.Read(buf);
  }

  /** `io::copy` from the reader: reads into a buffer of `bufSize` bytes until a
      read returns 0 or fails, and returns everything it wrote. */
  method Copy(reader: XipReader, bufSize: nat) returns (written: seq<byte>, r: Result<()>)
    requires reader.Valid() && bufSize > 0
    modifies reader
    ensures reader.Valid()
    ensures written == old(reader.Future()).bytes
    ensures r.Ok? <==> old(reader.Future()).ending != DecodeFailed
    ensures r.Err? ==> r.error == CorruptData
    ensures r.Ok? ==> reader.done
  {
    var buf := new byte[bufSize];
    written := [];
    while true
      invariant reader.Valid()
      invariant written + reader.Future().bytes == old(reader.Future()).bytes
      invariant reader.Future().ending == old(reader.Future()).ending
      decreases |reader.Future().bytes|
    {
      ghost var before := reader.Future();
      var n := ReadFrom(reader, buf);
      ghost var after := reader.Future();
      if n.Err? {
        return written, Err(n.error);
      }
      if n.value == 0 {
        return written, Ok(());
      }
      YieldsConsumes(before, after, n, buf[..n.value]);
      written := written + buf[..n.value];
    }
  }

  /** A read that yields bytes takes them off the front of what is left. */
  lemma YieldsConsumes(before: Outcome, after: Outcome, r: Result<nat>, out: seq<byte>)
    requires Yields(before, after, r, out) && r.Ok? && r.value > 0 && r.value == |out|
    ensures before.bytes == out + after.bytes && after.ending == before.ending
    ensures |after.bytes| < |before.bytes|
  {
    assert before.bytes == before.bytes[..|out|] + before.bytes[|out|..];
  }

  /** `unxip` up to the archive extractor: opens the stream and copies every
      decoded byte out of it. */
  method Extract(src: seq<byte>, contentLength: u64, inflate: Inflater, bufSize: nat) returns (r: Result<seq<byte>>)
    requires bufSize > 0
    ensures r == Unxipped(src, contentLength, inflate)
  {
    var reader := Open(src, contentLength, inflate);
    if reader.Err? {
      return Err(reader.error);
    }
    var written, copied := Copy(reader.value, bufSize);
    if copied.Err? {
      return Err(copied.error);
    }
    return Ok(written);
  }

  /** Extracting an encoded stream of 16 MiB raw frames yields their payloads
      concatenated, whatever the buffer size. */
  lemma UnxipRawStream(initial: u64, fs: seq<Frame>, trailing: seq<byte>, contentLength: u64, inflate: Inflater)
    requires Encodable(fs) && LoadsExactly(contentLength, HEADER_SIZE, initial, fs)
    requires forall i :: 0 <= i < |fs| ==> |fs[i].payload| == RAW_CHUNK_SIZE
    ensures Unxipped(EncodeStream(initial, fs) + trailing, contentLength, inflate) == Ok(Concat(fs))
  {
    ReadsEncodedStream(initial, fs, trailing, contentLength, inflate);
    RawFramesConcatenate(fs, inflate);
  }

  /** A compressed frame without the XZ signature does not fail extraction:
      the bytes of the frames before it are the whole result. */
  lemma UnxipSwallowsBadLzmaFrame(
    initial: u64, good: seq<Frame>, bad: Frame, rest: seq<Frame>, trailing: seq<byte>,
    contentLength: u64, inflate: Inflater)
    requires Encodable(good + [bad] + rest)
    requires LoadsExactly(contentLength, HEADER_SIZE, initial, good + [bad] + rest)
    requires Expected(good, inflate).ending == EndOfStream
    requires |bad.payload| != RAW_CHUNK_SIZE && |bad.payload| >= 6 && bad.payload[..6] != LZMA_MAGIC
    ensures Unxipped(EncodeStream(initial, good + [bad] + rest) + trailing, contentLength, inflate)
      == Ok(Expected(good, inflate).bytes)
  {
    ReadsEncodedStream(initial, good + [bad] + rest, trailing, contentLength, inflate);
    BadLzmaFrameTruncates(good, bad, rest, inflate);
  }
}
