/** The PBZX framing: the stream header, the chunk headers, the continuation
    rule, and the output a well-behaved reader produces from a chunk boundary. */
module Framing {
  import opened Errors
  import opened Bytes
  import opened Codec

  /** "pbzx", the first four bytes of every stream. */
  const PBZX_MAGIC: seq<byte> := [0x70, 0x62, 0x7A, 0x78]

  /** Magic and initial flags: the bytes consumed before the first chunk. */
  const HEADER_SIZE: nat := 12

  /** Chunk flags and chunk size, each a big-endian u64. */
  const CHUNK_HEADER_SIZE: nat := 16

  /** Bit 24 (`1 << 24`) of the flags: more chunks follow. */
  const CONTINUATION_BIT: nat := 0x100_0000

  predicate Continues(flags: u64)
  {
    (flags / CONTINUATION_BIT) % 2 == 1
  }

  /** `flags & (1 << 24) != 0`: bit 24 is set exactly when the flags modulo
      2^25 reach 2^24. */
  lemma ContinuesIsBit24(flags: u64)
    ensures Continues(flags) <==> flags % 0x200_0000 >= CONTINUATION_BIT
  {
    var q, r := flags / 0x200_0000, flags % 0x200_0000;
    var t := r / CONTINUATION_BIT;
    assert r == t * CONTINUATION_BIT + r % CONTINUATION_BIT;
    assert flags == (2 * q + t) * CONTINUATION_BIT + r % CONTINUATION_BIT;
    assert flags / CONTINUATION_BIT == 2 * q + t;
    assert t == 0 || t == 1;
  }

  /** On the wire, the continuation bit is the low bit of the fifth byte of the flags. */
  lemma ContinuationBitInFifthByte(bs: seq<byte>)
    requires |bs| == 8
    ensures Continues(U64FromBe(bs)) <==> bs[4] % 2 == 1
  {
    var hi, lo := bs[..5], bs[5..];
    assert bs == hi + lo;
    BeValueAppend(hi, lo);
    BeValueBound(lo);
    Pow256Values();
    var v := U64FromBe(bs);
    assert v == BeValue(hi) * CONTINUATION_BIT + BeValue(lo);
    assert v / CONTINUATION_BIT == BeValue(hi);
    assert hi[..4] + [bs[4]] == hi;
    BeValueAppend(hi[..4], [bs[4]]);
    assert BeValue(hi) == BeValue(hi[..4]) * 256 + bs[4];
  }

  /** The start of `new`: the magic, then the initial flags. */
  function ParseHeader(src: seq<byte>): (r: Result<u64>)
    ensures r.Ok? <==> |src| >= HEADER_SIZE && src[..4] == PBZX_MAGIC
    ensures r.Ok? ==> U64ToBe(r.value) == src[4..HEADER_SIZE]
    ensures |src| < 4 ==> r == Err(ShortRead)
    ensures |src| >= 4 && src[..4] != PBZX_MAGIC ==> r == Err(BadPbzxMagic)
    ensures |src| >= 4 && src[..4] == PBZX_MAGIC && |src| < HEADER_SIZE ==> r == Err(ShortRead)
  {
    if |src| < 4 then Err(ShortRead)
    else if src[..4] != PBZX_MAGIC then Err(BadPbzxMagic)
    else if |src| < HEADER_SIZE then Err(ShortRead)
    else
      U64ToFromBe(src[4..HEADER_SIZE]);
      Ok(U64FromBe(src[4..HEADER_SIZE]))
  }

  datatype ChunkHeader = ChunkHeader(flags: u64, size: u64)

  /** The two big-endian words of a 16-byte chunk header: flags, then size. */
  function ChunkHeaderOf(bs: seq<byte>): ChunkHeader
    requires |bs| == CHUNK_HEADER_SIZE
  {
    ChunkHeader(U64FromBe(bs[..8]), U64FromBe(bs[8..]))
  }

  /** The header words are exactly the big-endian reading of the 16 bytes. */
  lemma ChunkHeaderOfEncoding(bs: seq<byte>)
    requires |bs| == CHUNK_HEADER_SIZE
    ensures U64ToBe(ChunkHeaderOf(bs).flags) + U64ToBe(ChunkHeaderOf(bs).size) == bs
  {
    U64ToFromBe(bs[..8]);
    U64ToFromBe(bs[8..]);
    assert bs == bs[..8] + bs[8..];
  }

  /** The chunk header read at `pos`, or the short read that ends the source first. */
  function ChunkHeaderAt(src: seq<byte>, pos: nat): (r: Result<ChunkHeader>)
    ensures r.Ok? <==> pos + CHUNK_HEADER_SIZE <= |src|
    ensures r.Ok? ==> r.value == ChunkHeaderOf(src[pos..pos + CHUNK_HEADER_SIZE])
    ensures r.Err? ==> r.error == ShortRead
  {
    if |src| < pos + CHUNK_HEADER_SIZE then Err(ShortRead)
    else Ok(ChunkHeaderOf(src[pos..pos + CHUNK_HEADER_SIZE]))
  }

  /** Whether the reader stops before loading another chunk. */
  predicate AtEnd(contentLength: u64, readSize: nat, flags: u64)
  {
    readSize >= contentLength || !Continues(flags)
  }

  /** A loaded chunk: its flags, the cursor after its payload, and its decoder. */
  datatype Chunk = Chunk(flags: u64, next: nat, decoder: Producer)

  /** The chunk load algorithm at cursor `pos`: the header, then `size` payload
      bytes, then the codec's choice of decoder. */
  function ChunkAt(src: seq<byte>, pos: nat, inflate: Inflater): (r: Result<Chunk>)
    // the header at the cursor gives the chunk's flags and the end of its payload
    ensures r.Ok? ==>
      && ChunkHeaderAt(src, pos).Ok?
      && r.value.flags == ChunkHeaderAt(src, pos).value.flags
      && r.value.next == pos + CHUNK_HEADER_SIZE + ChunkHeaderAt(src, pos).value.size
      && r.value.next <= |src| && r.value.decoder.Valid()
    ensures r.Ok? ==> Decode(src[pos + CHUNK_HEADER_SIZE..r.value.next], inflate) == Ok(r.value.decoder)
  {
    match ChunkHeaderAt(src, pos)
    case Err(e) => Err(e)
    case Ok(h) =>
      var next := pos + CHUNK_HEADER_SIZE + h.size;
      if |src| < next then Err(ShortRead)
      else match Decode(src[pos + CHUNK_HEADER_SIZE..next], inflate)
        case Err(e) => Err(e)
        case Ok(p) => Ok(Chunk(h.flags, next, p))
  }

  /** A chunk loads exactly when its header and payload are there and the
      codec accepts the payload. A short header or payload is a short read;
      a payload the codec rejects fails with the codec's error. */
  lemma ChunkAtCases(src: seq<byte>, pos: nat, inflate: Inflater)
    ensures ChunkHeaderAt(src, pos).Err? ==> ChunkAt(src, pos, inflate) == Err(ShortRead)
    ensures ChunkHeaderAt(src, pos).Ok? ==>
      var next := pos + CHUNK_HEADER_SIZE + ChunkHeaderAt(src, pos).value.size;
      && (|src| < next ==> ChunkAt(src, pos, inflate) == Err(ShortRead))
      && (next <= |src| ==>
            var d := Decode(src[pos + CHUNK_HEADER_SIZE..next], inflate);
            && (d.Err? ==> ChunkAt(src, pos, inflate) == Err(d.error))
            && (d.Ok? ==> ChunkAt(src, pos, inflate).Ok?))
  {
  }

  /** What a reader at a chunk boundary (cursor `pos`, current `flags`) still
      produces: each chunk's decoded bytes in order, until the continuation
      rule stops it, a chunk cannot be loaded, or a decoder fails. */
  function ChunksFrom(src: seq<byte>, contentLength: u64, inflate: Inflater, pos: nat, flags: u64): Outcome
    decreases contentLength - pos
  {
    if AtEnd(contentLength, pos, flags) then Outcome([], EndOfStream)
    else match ChunkAt(src, pos, inflate)
      case Err(e) => Outcome([], LoadFailed(e))
      case Ok(c) => Then(c.decoder.Rest(), ChunksFrom(src, contentLength, inflate, c.next, c.flags))
  }

  /** After a header `h` read at `pos`, the chunk load algorithm takes the
      `h.size` bytes that follow as the payload. */
  lemma ChunkAtAfterHeader(src: seq<byte>, pos: nat, inflate: Inflater, h: ChunkHeader)
    requires ChunkHeaderAt(src, pos) == Ok(h)
    ensures var start, c := pos + CHUNK_HEADER_SIZE, ChunkAt(src, pos, inflate);
      && (|src| < start + h.size ==> c == Err(ShortRead))
      && (start + h.size <= |src| ==>
            var d := Decode(src[start..start + h.size], inflate);
            && (d.Err? ==> c == Err(d.error))
            && (d.Ok? ==> c.Ok?))
      && (c.Ok? ==>
            && c.value.flags == h.flags && c.value.next == start + h.size <= |src|
            && Decode(src[start..c.value.next], inflate) == Ok(c.value.decoder))
  {
    ChunkAtCases(src, pos, inflate);
  }

  /** A boundary where a chunk loads: its output, then the boundary after it. */
  lemma ChunksFromLoaded(src: seq<byte>, contentLength: u64, inflate: Inflater, pos: nat, flags: u64, c: Chunk)
    requires !AtEnd(contentLength, pos, flags) && ChunkAt(src, pos, inflate) == Ok(c)
    ensures ChunksFrom(src, contentLength, inflate, pos, flags)
      == Then(c.decoder.Rest(), ChunksFrom(src, contentLength, inflate, c.next, c.flags))
  {
  }

  /** A boundary where a chunk fails to load: nothing more, and the load error. */
  lemma ChunksFromFailed(src: seq<byte>, contentLength: u64, inflate: Inflater, pos: nat, flags: u64, e: Error)
    requires !AtEnd(contentLength, pos, flags) && ChunkAt(src, pos, inflate) == Err(e)
    ensures ChunksFrom(src, contentLength, inflate, pos, flags) == Outcome([], LoadFailed(e))
  {
  }
}
