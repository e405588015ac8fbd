/** The PBZX stream reader: parses chunk headers lazily and serves the decoded
    bytes of one chunk after another through a pull-based `Read`. */
module Reader {
  import opened Errors
  import opened Bytes
  import opened Codec
  import opened Framing
  import opened Machine

  /** Copies `bytes` to the front of `buf`, leaving the rest of it alone. */
  method CopyInto(buf: array<byte>, bytes: seq<byte>)
    requires |bytes| <= buf.Length
    modifies buf
    ensures buf[..|bytes|] == bytes
    ensures buf[|bytes|..] == old(buf[|bytes|..])
  {
    for i := 0 to |bytes|
      invariant buf[..i] == bytes[..i]
      invariant buf[|bytes|..] == old(buf[|bytes|..])
    {
      buf[i] := bytes[i];
    }
  }

  /** `read` on the active chunk decoder (a `Cursor` over the payload, or the
      XZ decoder): fills the front of `buf` with what `Pull` yields. */
  method ReadChunk(p: Producer, buf: array<byte>) returns (r: Result<nat>, q: Producer)
    requires p.Valid()
    modifies buf
    ensures Pull(p, buf.Length).Err? ==> r == Err(Pull(p, buf.Length).error) && q == p
    ensures Pull(p, buf.Length).Ok? ==>
      var (bytes, rest) := Pull(p, buf.Length).value;
      r == Ok(|bytes|) && q == rest && buf[..|bytes|] == bytes
  {
    var pulled := Pull(p, buf.Length);
    if pulled.Err? {
      return Err(pulled.error), p;
    }
    var (bytes, rest) := pulled.value;
    CopyInto(buf, bytes);
    return Ok(|bytes|), rest;
  }

  class XipReader {
    /** The underlying source: every byte from the start of the payload (where
        the container put the cursor) to the end of the file. */
    const src: seq<byte>
    /** The source's read cursor. */
    var pos: nat
    /** The payload length the container declares. */
    const contentLength: u64
    /** The bytes of the payload consumed so far. */
    var contentReadSize: nat
    /** The decoder of the chunk being served, if any. */
    var chunkDecoder: Option<Producer>
    /** Set once the stream has ended; never cleared. */
    var done: bool
    /** The flags of the stream header, then of the last chunk header read. */
    var flags: u64
    /** The XZ decompressor. */
    const inflate: Inflater

    /** What this reader was built from. */
    ghost function In(): Input
    {
      Input(src, contentLength, inflate)
    }

    /** The mutable fields as a value of the state machine. */
    ghost function Snapshot(): State
      reads this
    {
      State(pos, contentReadSize, flags, chunkDecoder, done)
    }

    ghost predicate Valid()
      reads this
    {
      Snapshot().Valid()
    }

    /** Everything this reader will still produce. */
    ghost function Future(): Outcome
      reads this
      requires Valid()
    {
      Machine.Future(In(), Snapshot())
    }

    /** The reader `new` builds once it has read the 12-byte stream header. */
    constructor (src: seq<byte>, contentLength: u64, flags: u64, inflate: Inflater)
      ensures In() == Input(src, contentLength, inflate)
      ensures Snapshot() == Initial(flags) && Valid()
    {
      this.src := src;
      this.pos := HEADER_SIZE;
      this.contentLength := contentLength;
      this.contentReadSize := HEADER_SIZE;
      this.chunkDecoder := None;
      this.done := false;
      this.flags := flags;
      this.inflate := inflate;
    }

    /** `read_exact` on the source: the next n bytes, or a short read that
        consumes whatever remains. */
    method ReadExact(n: nat) returns (r: Result<seq<byte>>)
      modifies this`pos
      ensures old(pos) + n <= |src| ==> r == Ok(src[old(pos)..old(pos) + n]) && pos == old(pos) + n
      ensures |src| < old(pos) + n ==> r == Err(ShortRead) && pos == |src|
    {
      if |src| < pos + n {
        pos := |src|;
        return Err(ShortRead);
      }
      r := Ok(src[pos..pos + n]);
      pos := pos + n;
    }

    /** Applies the continuation rule, then reads one chunk header and hands
        the payload to `LoadPayload`. */
    method LoadNextChunk() returns (r: Result<()>)
      requires Valid()
      modifies this
      ensures (Snapshot(), r) == LoadStep(In(), old(Snapshot()))
    {
      if contentReadSize >= contentLength || !Continues(flags) {
        done := true;
        return Ok(());
      }
      LoadStepReadsHeader(In(), Snapshot());
      var header := ReadExact(CHUNK_HEADER_SIZE);
      if header.Err? {
        return Err(header.error);
      }
      contentReadSize := contentReadSize + CHUNK_HEADER_SIZE;
      var h := ChunkHeaderOf(header.value);
      flags := h.flags;
      r := LoadPayload(h.size);
    }

    /** The rest of `load_next_chunk` once the header is consumed: reads `size`
        payload bytes and installs the chunk's decoder. */
    method LoadPayload(size: u64) returns (r: Result<()>)
      modifies this
      ensures (Snapshot(), r) == Machine.LoadPayload(In(), old(Snapshot()), size)
    {
      ghost var s := Snapshot();
      var bytes := ReadExact(size);
      if bytes.Err? {
        assert Machine.LoadPayload(In(), s, size) == (Snapshot(), Err(ShortRead));
        return Err(bytes.error);
      }
      contentReadSize := contentReadSize + size;
      var decoder := Decode(bytes.value, inflate);
      assert Machine.LoadPayload(In(), s, size) == match decoder
        case Err(e) => (Snapshot(), Err(e))
        case Ok(p) => (Snapshot().(decoder := Some(p)), Ok(()));
      if decoder.Err? {
        return Err(decoder.error);
      }
      chunkDecoder := Some(decoder.value);
      return Ok(());
    }

    /** Fills the front of `buf` with the next decoded bytes and returns how
        many; 0 means the end of the stream. */
    method Read(buf: array<byte>) returns (r: Result<nat>)
      requires Valid()
      modifies this, buf
      ensures var (s, res, out) := ReadStep(In(), old(Snapshot()), buf.Length);
        && Snapshot() == s && r == res
        && (r.Ok? ==> r.value == |out| <= buf.Length && buf[..r.value] == out)
      ensures Valid()
      ensures r == Ok(0) ==> done
      ensures old(contentReadSize) <= contentReadSize
      ensures old(done) ==> r == Ok(0) && unchanged(this) && unchanged(buf)
      ensures buf.Length > 0 ==> Yields(old(Future()), Future(), r, if r.Ok? then buf[..r.value] else [])
    {
      ReadStepShape(In(), Snapshot(), buf.Length);
      if buf.Length > 0 {
        ReadStepYields(In(), Snapshot(), buf.Length);
      }
      if done {
        return Ok(0);
      }
      ghost var start := Snapshot();
      while true
        invariant Valid() && !done
        invariant Drain(In(), Snapshot(), buf.Length) == Drain(In(), start, buf.Length)
        decreases contentLength - contentReadSize
      {
        if chunkDecoder.Some? {
          var p := chunkDecoder.value;
          var n, q := ReadChunk(p, buf);
          if n.Err? {
            return n;
          }
          chunkDecoder := Some(q);
          if n.value > 0 {
            return n;
          }
          chunkDecoder := None;
        }
        var loaded := LoadNextChunk();
        if loaded.Err? {
          done := true;
          return Ok(0);
        }
        if done {
          return Ok(0);
        }
      }
    }
  }

  /** `XipReader::new` from the point where the source is positioned at the
      payload: checks the magic and reads the initial flags. */
  method Open(src: seq<byte>, contentLength: u64, inflate: Inflater) returns (r: Result<XipReader>)
    ensures r.Err? <==> ParseHeader(src).Err?
    ensures r.Err? ==> r.error == ParseHeader(src).error
    ensures r.Ok? ==>
      && fresh(r.value) && r.value.In() == Input(src, contentLength, inflate)
      && r.value.Snapshot() == Initial(ParseHeader(src).value) && r.value.Valid()
  {
    var header := ParseHeader(src);
    if header.Err? {
      return Err(header.error);
    }
    var reader := new XipReader(src, contentLength, header.value, inflate);
    return Ok(reader);
  }
}
