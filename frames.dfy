/** PBZX streams built from frames: the byte layout a reader expects, and what
    a reader produces from it. */
module Frames {
  import opened Errors
  import opened Bytes
  import opened Codec
  import opened Framing
  import opened Machine

  /** One chunk on the wire: its flags and its payload. */
  datatype Frame = Frame(flags: u64, payload: seq<byte>)

  /** Every payload length fits the 64-bit size field. */
  predicate Encodable(fs: seq<Frame>)
  {
    forall i :: 0 <= i < |fs| ==> |fs[i].payload| < U64_BOUND
  }

  /** A chunk header (flags, then size, both big-endian) followed by the payload. */
  function EncodeFrame(f: Frame): (bs: seq<byte>)
    requires |f.payload| < U64_BOUND
    ensures |bs| == CHUNK_HEADER_SIZE + |f.payload|
  {
    U64ToBe(f.flags) + U64ToBe(|f.payload|) + f.payload
  }

  function EncodeFrames(fs: seq<Frame>): seq<byte>
    requires Encodable(fs)
  {
    if fs == [] then [] else EncodeFrame(fs[0]) + EncodeFrames(fs[1..])
  }

  /** A whole stream: "pbzx", the initial flags, then the frames. */
  function EncodeStream(initial: u64, fs: seq<Frame>): (bs: seq<byte>)
    requires Encodable(fs)
    ensures |bs| == HEADER_SIZE + |EncodeFrames(fs)|
  {
    PBZX_MAGIC + U64ToBe(initial) + EncodeFrames(fs)
  }

  /** What a loaded frame yields: its decoder's output, or the load error that
      ends the stream in its place. */
  function FrameOutput(f: Frame, inflate: Inflater): Outcome
  {
    match Decode(f.payload, inflate)
    case Ok(p) => p.Rest()
    case Err(e) => Outcome([], LoadFailed(e))
  }

  /** The frames' outputs one after another, each reached only if the one
      before it ended cleanly. */
  function Expected(fs: seq<Frame>, inflate: Inflater): Outcome
  {
    if fs == [] then Outcome([], EndOfStream)
    else Then(FrameOutput(fs[0], inflate), Expected(fs[1..], inflate))
  }

  /** The continuation rule lets the reader load exactly the frames `fs`,
      starting at cursor `pos` with flags `flags`, and stop after them. */
  predicate LoadsExactly(contentLength: u64, pos: nat, flags: u64, fs: seq<Frame>)
    requires Encodable(fs)
    decreases fs
  {
    if fs == [] then AtEnd(contentLength, pos, flags)
    else
      && !AtEnd(contentLength, pos, flags)
      && LoadsExactly(contentLength, pos + |EncodeFrame(fs[0])|, fs[0].flags, fs[1..])
  }

  /** The flags before each frame carry the continuation bit. */
  predicate Chained(flags: u64, fs: seq<Frame>)
  {
    && (fs != [] ==> Continues(flags))
    && forall i :: 0 <= i < |fs| - 1 ==> Continues(fs[i].flags)
  }

  lemma {:induction false} ExpectedAppend(a: seq<Frame>, b: seq<Frame>, inflate: Inflater)
    ensures Expected(a + b, inflate) == Then(Expected(a, inflate), Expected(b, inflate))
  {
    if a == [] {
      assert a + b == b;
      assert [] + Expected(b, inflate).bytes == Expected(b, inflate).bytes;
    } else {
      assert (a + b)[0] == a[0] && (a + b)[1..] == a[1..] + b;
      ExpectedAppend(a[1..], b, inflate);
      ThenAssociative(FrameOutput(a[0], inflate), Expected(a[1..], inflate), Expected(b, inflate));
    }
  }

  /** The 16 header bytes of a frame read back as its flags and its size. */
  lemma HeaderOfEncodedFrame(f: Frame)
    requires |f.payload| < U64_BOUND
    ensures ChunkHeaderOf(EncodeFrame(f)[..CHUNK_HEADER_SIZE]) == ChunkHeader(f.flags, |f.payload|)
  {
    var bs := EncodeFrame(f)[..CHUNK_HEADER_SIZE];
    assert bs[..8] == U64ToBe(f.flags);
    assert bs[8..] == U64ToBe(|f.payload|);
    U64FromToBe(f.flags);
    U64FromToBe(|f.payload|);
  }

  /** The chunk load algorithm, at a cursor where a frame is encoded, loads
      that frame: its flags, the cursor past it, and its payload's decoder. */
  lemma ChunkAtEncodedFrame(src: seq<byte>, pos: nat, inflate: Inflater, f: Frame)
    requires |f.payload| < U64_BOUND
    requires pos + |EncodeFrame(f)| <= |src| && src[pos..pos + |EncodeFrame(f)|] == EncodeFrame(f)
    ensures src[pos + CHUNK_HEADER_SIZE..pos + |EncodeFrame(f)|] == f.payload
    ensures match Decode(f.payload, inflate)
      case Ok(p) => ChunkAt(src, pos, inflate) == Ok(Chunk(f.flags, pos + |EncodeFrame(f)|, p))
      case Err(e) => ChunkAt(src, pos, inflate) == Err(e)
  {
    var enc := EncodeFrame(f);
    var next := pos + |enc|;
    assert src[pos..pos + CHUNK_HEADER_SIZE] == enc[..CHUNK_HEADER_SIZE];
    HeaderOfEncodedFrame(f);
    assert ChunkHeaderAt(src, pos) == Ok(ChunkHeader(f.flags, |f.payload|));
    assert src[pos + CHUNK_HEADER_SIZE..next] == enc[CHUNK_HEADER_SIZE..] == f.payload;
  }

  /** One step of the reader over an encoded frame: the frame's output, then
      whatever the reader produces from the boundary after it. */
  lemma ChunksFromEncodedFrame(
    src: seq<byte>, contentLength: u64, inflate: Inflater, pos: nat, flags: u64, f: Frame)
    requires |f.payload| < U64_BOUND && !AtEnd(contentLength, pos, flags)
    requires pos + |EncodeFrame(f)| <= |src| && src[pos..pos + |EncodeFrame(f)|] == EncodeFrame(f)
    ensures ChunksFrom(src, contentLength, inflate, pos, flags)
      == Then(FrameOutput(f, inflate), ChunksFrom(src, contentLength, inflate, pos + |EncodeFrame(f)|, f.flags))
  {
    ChunkAtEncodedFrame(src, pos, inflate, f);
    ChunksFromLoadedFrame(src, contentLength, inflate, pos, flags, f, pos + |EncodeFrame(f)|);
  }

  /** A boundary where the chunk load algorithm loads frame `f` and moves the
      cursor to `next`: the frame's output, then what follows from `next`. */
  lemma ChunksFromLoadedFrame(
    src: seq<byte>, contentLength: u64, inflate: Inflater, pos: nat, flags: u64, f: Frame, next: nat)
    requires !AtEnd(contentLength, pos, flags)
    requires var d := Decode(f.payload, inflate);
      && (d.Ok? ==> ChunkAt(src, pos, inflate) == Ok(Chunk(f.flags, next, d.value)))
      && (d.Err? ==> ChunkAt(src, pos, inflate) == Err(d.error))
    ensures ChunksFrom(src, contentLength, inflate, pos, flags)
      == Then(FrameOutput(f, inflate), ChunksFrom(src, contentLength, inflate, next, f.flags))
  {
    match Decode(f.payload, inflate)
    case Ok(p) => ChunksFromLoaded(src, contentLength, inflate, pos, flags, Chunk(f.flags, next, p));
    case Err(e) => ChunksFromFailed(src, contentLength, inflate, pos, flags, e);
  }

  /** From a chunk boundary where frames are encoded, and where the
      continuation rule stops right after them, the reader produces exactly the
      frames' outputs in order. */
  lemma {:induction false} ChunksFromEncodedFrames(
    src: seq<byte>, contentLength: u64, inflate: Inflater, pos: nat, flags: u64, fs: seq<Frame>)
    requires Encodable(fs) && LoadsExactly(contentLength, pos, flags, fs)
    requires pos + |EncodeFrames(fs)| <= |src| && src[pos..pos + |EncodeFrames(fs)|] == EncodeFrames(fs)
    ensures ChunksFrom(src, contentLength, inflate, pos, flags) == Expected(fs, inflate)
    decreases fs
  {
    if fs != [] {
      var next := pos + |EncodeFrame(fs[0])|;
      SplitEncodedFrames(src, pos, fs);
      ChunksFromEncodedFrame(src, contentLength, inflate, pos, flags, fs[0]);
      ChunksFromEncodedFrames(src, contentLength, inflate, next, fs[0].flags, fs[1..]);
      var rest := ChunksFrom(src, contentLength, inflate, next, fs[0].flags);
      assert ChunksFrom(src, contentLength, inflate, pos, flags) == Then(FrameOutput(fs[0], inflate), rest);
      assert Expected(fs, inflate) == Then(FrameOutput(fs[0], inflate), Expected(fs[1..], inflate));
    }
  }

  /** Encoded frames at a cursor are the first frame's encoding followed by
      the encoding of the rest. */
  lemma SplitEncodedFrames(src: seq<byte>, pos: nat, fs: seq<Frame>)
    requires Encodable(fs) && fs != []
    requires pos + |EncodeFrames(fs)| <= |src| && src[pos..pos + |EncodeFrames(fs)|] == EncodeFrames(fs)
    ensures Encodable(fs[1..]) && |fs[0].payload| < U64_BOUND
    ensures var next := pos + |EncodeFrame(fs[0])|;
      && next + |EncodeFrames(fs[1..])| == pos + |EncodeFrames(fs)|
      && src[pos..next] == EncodeFrame(fs[0])
      && src[next..next + |EncodeFrames(fs[1..])|] == EncodeFrames(fs[1..])
  {
    EncodeFramesCons(fs);
    SliceOfConcat(src, pos, EncodeFrame(fs[0]), EncodeFrames(fs[1..]));
  }

  /** The encoding of non-empty frames is the first frame's, then the rest's. */
  lemma EncodeFramesCons(fs: seq<Frame>)
    requires Encodable(fs) && fs != []
    ensures Encodable(fs[1..]) && |fs[0].payload| < U64_BOUND
    ensures EncodeFrames(fs) == EncodeFrame(fs[0]) + EncodeFrames(fs[1..])
  {
    assert forall i :: 0 <= i < |fs| - 1 ==> fs[1..][i] == fs[i + 1];
  }

  /** Where `a + b` sits in `src`, `a` sits at the same cursor and `b` right after it. */
  lemma SliceOfConcat(src: seq<byte>, pos: nat, a: seq<byte>, b: seq<byte>)
    requires pos + |a + b| <= |src| && src[pos..pos + |a + b|] == a + b
    ensures src[pos..pos + |a|] == a && src[pos + |a|..pos + |a| + |b|] == b
  {
    var whole := src[pos..pos + |a + b|];
    assert src[pos..pos + |a|] == whole[..|a|];
    assert src[pos + |a|..pos + |a| + |b|] == whole[|a|..];
  }

  /** When the declared content length is exactly the stream's length and every
      frame but the last carries the continuation bit, the reader loads every
      frame and stops after the last one, whatever its flags. */
  lemma {:induction false} ExactLengthLoadsAll(contentLength: u64, pos: nat, flags: u64, fs: seq<Frame>)
    requires Encodable(fs) && Chained(flags, fs)
    requires pos + |EncodeFrames(fs)| == contentLength
    ensures LoadsExactly(contentLength, pos, flags, fs)
    decreases fs
  {
    if fs != [] {
      var rest := fs[1..];
      assert Encodable(rest);
      assert EncodeFrames(fs) == EncodeFrame(fs[0]) + EncodeFrames(rest);
      assert Chained(fs[0].flags, rest) by {
        if rest != [] {
          assert Continues(fs[0].flags);
        }
        forall i | 0 <= i < |rest| - 1
          ensures Continues(rest[i].flags)
        {
          assert rest[i] == fs[i + 1];
        }
      }
      ExactLengthLoadsAll(contentLength, pos + |EncodeFrame(fs[0])|, fs[0].flags, rest);
    }
  }

  /** When the content length leaves room for every frame's header, a cleared
      continuation bit on the last frame is what stops the reader. */
  lemma {:induction false} LastFlagsStop(contentLength: u64, pos: nat, flags: u64, fs: seq<Frame>)
    requires Encodable(fs) && Chained(flags, fs) && fs != [] && !Continues(fs[|fs| - 1].flags)
    requires pos + |EncodeFrames(fs)| <= contentLength
    ensures LoadsExactly(contentLength, pos, flags, fs)
    decreases fs
  {
    var rest := fs[1..];
    assert Encodable(rest);
    assert EncodeFrames(fs) == EncodeFrame(fs[0]) + EncodeFrames(rest);
    if rest != [] {
      assert Chained(fs[0].flags, rest) by {
        assert Continues(fs[0].flags);
        forall i | 0 <= i < |rest| - 1
          ensures Continues(rest[i].flags)
        {
          assert rest[i] == fs[i + 1];
        }
      }
      assert rest[|rest| - 1] == fs[|fs| - 1];
      LastFlagsStop(contentLength, pos + |EncodeFrame(fs[0])|, fs[0].flags, rest);
    }
  }

  /** The round trip: a reader opened on an encoded stream (followed by any
      bytes) reads back the initial flags and will produce exactly the frames'
      outputs, ending where the continuation rule stops it. */
  lemma ReadsEncodedStream(initial: u64, fs: seq<Frame>, trailing: seq<byte>, contentLength: u64, inflate: Inflater)
    requires Encodable(fs) && LoadsExactly(contentLength, HEADER_SIZE, initial, fs)
    ensures var src := EncodeStream(initial, fs) + trailing;
      && ParseHeader(src) == Ok(initial)
      && Future(Input(src, contentLength, inflate), Initial(initial)) == Expected(fs, inflate)
  {
    var src := EncodeStream(initial, fs) + trailing;
    var body := EncodeFrames(fs);
    assert src[..4] == PBZX_MAGIC;
    assert src[4..HEADER_SIZE] == U64ToBe(initial);
    U64ToBeInjective(ParseHeader(src).value, initial);
    assert src[HEADER_SIZE..HEADER_SIZE + |body|] == body;
    ChunksFromEncodedFrames(src, contentLength, inflate, HEADER_SIZE, initial, fs);
  }

  /** A stream of 16 MiB raw frames yields the concatenation of their payloads. */
  function Concat(fs: seq<Frame>): seq<byte>
  {
    if fs == [] then [] else fs[0].payload + Concat(fs[1..])
  }

  lemma {:induction false} RawFramesConcatenate(fs: seq<Frame>, inflate: Inflater)
    requires forall i :: 0 <= i < |fs| ==> |fs[i].payload| == RAW_CHUNK_SIZE
    ensures Expected(fs, inflate) == Outcome(Concat(fs), EndOfStream)
  {
    if fs != [] {
      assert FrameOutput(fs[0], inflate) == Outcome(fs[0].payload, EndOfStream);
      RawFramesConcatenate(fs[1..], inflate);
    }
  }

  /** A compressed frame without the XZ signature ends the stream there, as a
      load failure: nothing of it or of the frames after it is produced. */
  lemma BadLzmaFrameTruncates(good: seq<Frame>, bad: Frame, rest: seq<Frame>, inflate: Inflater)
    requires Expected(good, inflate).ending == EndOfStream
    requires |bad.payload| != RAW_CHUNK_SIZE && |bad.payload| >= 6 && bad.payload[..6] != LZMA_MAGIC
    ensures Expected(good + [bad] + rest, inflate) == Outcome(Expected(good, inflate).bytes, LoadFailed(BadLzmaMagic))
  {
    ExpectedAppend(good + [bad], rest, inflate);
    ExpectedAppend(good, [bad], inflate);
    assert Expected([bad], inflate) == Outcome([], LoadFailed(BadLzmaMagic));
    assert Expected(good, inflate).bytes + [] == Expected(good, inflate).bytes;
  }
}
