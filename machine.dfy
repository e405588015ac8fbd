/** The reader's state machine as values: one function per operation of the
    reader, and the lemmas that say what they produce. */
module Machine {
  import opened Errors
  import opened Bytes
  import opened Codec
  import opened Framing

  /** What a reader is built from and never changes: the source from the start
      of the payload on, the declared payload length, and the XZ decompressor. */
  datatype Input = Input(src: seq<byte>, contentLength: u64, inflate: Inflater)

  /** The mutable fields of a reader: the source cursor, the consumed-byte
      counter, the current flags, the active chunk decoder and the end flag. */
  datatype State = State(pos: nat, readSize: nat, flags: u64, decoder: Option<Producer>, done: bool)
  {
    predicate Valid()
    {
      && (!done ==> readSize == pos)
      && (decoder.Some? ==> decoder.value.Valid())
    }
  }

  /** The state `new` leaves: the 12 header bytes consumed, no decoder, not done. */
  function Initial(flags: u64): State
  {
    State(HEADER_SIZE, HEADER_SIZE, flags, None, false)
  }

  /** Everything a reader in state `s` will still produce. */
  function Future(input: Input, s: State): Outcome
    requires s.Valid()
  {
    if s.done then Outcome([], EndOfStream)
    else
      var rest := ChunksFrom(input.src, input.contentLength, input.inflate, s.pos, s.flags);
      match s.decoder
      case None => rest
      case Some(p) => Then(p.Rest(), rest)
  }

  /** `load_next_chunk`: the new state and the result. */
  function LoadStep(input: Input, s: State): (res: (State, Result<()>))
    requires s.Valid()
    ensures res.1.Ok? ==> res.0.Valid()
    // the continuation rule: the stream ends without a byte read from the source
    ensures AtEnd(input.contentLength, s.readSize, s.flags) ==>
      res.1.Ok? && res.0.done && res.0.pos == s.pos && res.0.readSize == s.readSize
    ensures !AtEnd(input.contentLength, s.readSize, s.flags) ==> res.0.done == s.done
    // every load that does not end the stream consumes at least a chunk header
    ensures res.1.Ok? && !res.0.done ==>
      s.readSize < input.contentLength && res.0.readSize >= s.readSize + CHUNK_HEADER_SIZE
    ensures res.1.Err? ==> res.0.decoder == s.decoder
    // the consumed-byte counter never goes back
    ensures res.0.readSize >= s.readSize
  {
    if AtEnd(input.contentLength, s.readSize, s.flags) then (s.(done := true), Ok(()))
    else match ChunkHeaderAt(input.src, s.pos)
      case Err(e) => (s.(pos := |input.src|), Err(e))
      case Ok(h) =>
        var headed := s.(pos := s.pos + CHUNK_HEADER_SIZE, readSize := s.readSize + CHUNK_HEADER_SIZE, flags := h.flags);
        LoadPayload(input, headed, h.size)
  }

  /** The second half of `load_next_chunk`, once the header is consumed: the
      `size` payload bytes, then the chunk's decoder. */
  function LoadPayload(input: Input, s: State, size: nat): (State, Result<()>)
  {
    if |input.src| < s.pos + size then (s.(pos := |input.src|), Err(ShortRead))
    else
      var consumed := s.(pos := s.pos + size, readSize := s.readSize + size);
      match Decode(input.src[s.pos..s.pos + size], input.inflate)
      case Err(e) => (consumed, Err(e))
      case Ok(p) => (consumed.(decoder := Some(p)), Ok(()))
  }

  /** The loop of `read` with room for `room` bytes: the state after it, its
      result, and the bytes it writes to the front of the buffer. */
  function Drain(input: Input, s: State, room: nat): (State, Result<nat>, seq<byte>)
    requires s.Valid() && !s.done
    decreases input.contentLength - s.readSize
  {
    if s.decoder.Some? && Pull(s.decoder.value, room).Err? then
      (s, Err(Pull(s.decoder.value, room).error), [])
    else if s.decoder.Some? && Pull(s.decoder.value, room).value.0 != [] then
      var (bytes, q) := Pull(s.decoder.value, room).value;
      (s.(decoder := Some(q)), Ok(|bytes|), bytes)
    else
      var (loaded, r) := LoadStep(input, s.(decoder := None));
      if r.Err? then (loaded.(done := true), Ok(0), [])
      else if loaded.done then (loaded, Ok(0), [])
      else Drain(input, loaded, room)
  }

  /** `read`: once the stream is done it reports 0 and changes nothing. */
  function ReadStep(input: Input, s: State, room: nat): (State, Result<nat>, seq<byte>)
    requires s.Valid()
  {
    if s.done then (s, Ok(0), []) else Drain(input, s, room)
  }

  /** The payload half of a load: a short payload is a short read that
      consumes the rest of the source; otherwise both counters advance past
      the payload, and the load succeeds exactly when the codec accepts the
      payload bytes, whose decoder becomes the active one. */
  lemma LoadPayloadEffect(input: Input, s: State, size: nat)
    ensures var (s', r) := LoadPayload(input, s, size);
      && (|input.src| < s.pos + size ==> s' == s.(pos := |input.src|) && r == Err(ShortRead))
      && (s.pos + size <= |input.src| ==>
            var d := Decode(input.src[s.pos..s.pos + size], input.inflate);
            && s'.pos == s.pos + size && s'.readSize == s.readSize + size
            && (d.Ok? ==> r.Ok? && s'.decoder == Some(d.value) && d.value.Valid())
            && (d.Err? ==> r == Err(d.error) && s'.decoder == s.decoder))
      && s'.flags == s.flags && s'.done == s.done && s'.readSize >= s.readSize
  {
  }

  /** A stream whose header already stops the reader (its flags clear bit 24,
      or the declared length is at most the 12 header bytes) produces nothing:
      the first `read` returns 0 and ends the stream without reading a chunk
      header. */
  lemma HeaderOnlyStreamIsEmpty(input: Input, flags: u64, room: nat)
    requires AtEnd(input.contentLength, HEADER_SIZE, flags)
    ensures var (s', r, out) := ReadStep(input, Initial(flags), room);
      && r == Ok(0) && out == [] && s'.done
      && s'.pos == HEADER_SIZE && s'.readSize == HEADER_SIZE
    ensures Future(input, Initial(flags)) == Outcome([], EndOfStream)
  {
  }

  /** Past the continuation rule, a load reads the chunk header at the cursor
      and hands the rest to `LoadPayload`, or stops at a short read. */
  lemma LoadStepReadsHeader(input: Input, s: State)
    requires s.Valid() && !AtEnd(input.contentLength, s.readSize, s.flags)
    ensures match ChunkHeaderAt(input.src, s.pos)
      case Err(e) => LoadStep(input, s) == (s.(pos := |input.src|), Err(e))
      case Ok(h) => LoadStep(input, s) == LoadPayload(input, s.(pos := s.pos + CHUNK_HEADER_SIZE,
                      readSize := s.readSize + CHUNK_HEADER_SIZE, flags := h.flags), h.size)
  {
  }

  /** Past the continuation rule, a load is the chunk load algorithm at the
      cursor: it installs that chunk, or fails where the chunk cannot be loaded. */
  lemma LoadStepLoadsChunk(input: Input, s: State)
    requires s.Valid() && !s.done && !AtEnd(input.contentLength, s.readSize, s.flags)
    ensures var (s', r) := LoadStep(input, s);
      match ChunkAt(input.src, s.pos, input.inflate)
      case Err(e) => r == Err(e) && s'.decoder == s.decoder
      case Ok(c) => r.Ok? && s' == State(c.next, c.next, c.flags, Some(c.decoder), false)
  {
    LoadStepReadsHeader(input, s);
    match ChunkHeaderAt(input.src, s.pos)
    case Err(e) =>
    case Ok(h) =>
      ChunkAtAfterHeader(input.src, s.pos, input.inflate, h);
      var headed := s.(pos := s.pos + CHUNK_HEADER_SIZE,
                       readSize := s.readSize + CHUNK_HEADER_SIZE, flags := h.flags);
      PayloadLoadsChunk(input, headed, h.size, ChunkAt(input.src, s.pos, input.inflate));
  }

  /** The payload half of a load, from a state whose cursor is just past a
      header with flags `headed.flags` and size `size`, installs the chunk `c`
      the chunk load algorithm gives for that header, or fails as `c` does. */
  lemma PayloadLoadsChunk(input: Input, headed: State, size: nat, c: Result<Chunk>)
    requires headed.readSize == headed.pos && !headed.done
    requires |input.src| < headed.pos + size ==> c == Err(ShortRead)
    requires headed.pos + size <= |input.src| ==>
      var d := Decode(input.src[headed.pos..headed.pos + size], input.inflate);
      && (d.Err? ==> c == Err(d.error))
      && (d.Ok? ==> c.Ok?)
    requires c.Ok? ==>
      && c.value.flags == headed.flags && c.value.next == headed.pos + size <= |input.src|
      && Decode(input.src[headed.pos..c.value.next], input.inflate) == Ok(c.value.decoder)
    ensures var (s', r) := LoadPayload(input, headed, size);
      match c
      case Err(e) => r == Err(e) && s'.decoder == headed.decoder
      case Ok(chunk) => r.Ok? && s' == State(chunk.next, chunk.next, chunk.flags, Some(chunk.decoder), false)
  {
    LoadPayloadEffect(input, headed, size);
  }



  /** Between chunks, a load leaves what the reader will produce unchanged: it
      ends the stream only where nothing is left, and fails only where the
      chunk cannot be loaded. */
  lemma LoadStepKeepsFuture(input: Input, s: State)
    requires s.Valid() && !s.done && s.decoder.None?
    ensures var (s', r) := LoadStep(input, s);
      && (r.Ok? && s'.done ==> Future(input, s) == Outcome([], EndOfStream))
      && (r.Ok? && !s'.done ==> Future(input, s') == Future(input, s))
      && (r.Err? ==> Future(input, s) == Outcome([], LoadFailed(r.error)))
  {
    if !AtEnd(input.contentLength, s.readSize, s.flags) {
      LoadStepLoadsChunk(input, s);
      assert Future(input, s) == ChunksFrom(input.src, input.contentLength, input.inflate, s.pos, s.flags);
    }
  }

  /** The loop of `read` keeps the state valid, fills at most the buffer, and
      ends the stream whenever it reports 0. */
  lemma {:induction false} DrainShape(input: Input, s: State, room: nat)
    requires s.Valid() && !s.done
    ensures var (s', r, out) := Drain(input, s, room);
      && s'.Valid()
      && (r.Ok? ==> r.value == |out| <= room)
      && (r == Ok(0) ==> s'.done)
      && (room == 0 ==> r == Ok(0))
      && s'.readSize >= s.readSize
    decreases input.contentLength - s.readSize
  {
    if s.decoder.Some? && Pull(s.decoder.value, room).Err? {
    } else if s.decoder.Some? && Pull(s.decoder.value, room).value.0 != [] {
    } else {
      var (loaded, r) := LoadStep(input, s.(decoder := None));
      if r.Ok? && !loaded.done {
        DrainShape(input, loaded, room);
      }
    }
  }

  /** What one `read` promises about what the reader still produces. */
  predicate Yields(before: Outcome, after: Outcome, r: Result<nat>, out: seq<byte>)
  {
    && (r.Ok? && r.value > 0 ==>
          && |out| <= |before.bytes|
          && out == before.bytes[..|out|]
          && after == Outcome(before.bytes[|out|..], before.ending))
    && (r == Ok(0) <==> before.bytes == [] && before.ending != DecodeFailed)
    && (r.Err? ==> r.error == CorruptData && before == Outcome([], DecodeFailed) && after == before)
  }

  /** The loop of `read` yields the front of what the reader still produces,
      and reports 0 exactly when nothing is left and no decoder has failed. */
  lemma {:induction false} DrainFuture(input: Input, s: State, room: nat)
    requires s.Valid() && !s.done && room > 0
    ensures var (s', r, out) := Drain(input, s, room);
      s'.Valid() && Yields(Future(input, s), Future(input, s'), r, out)
    decreases input.contentLength - s.readSize
  {
    var rest := ChunksFrom(input.src, input.contentLength, input.inflate, s.pos, s.flags);
    var (s', r, out) := Drain(input, s, room);
    if s.decoder.Some? && Pull(s.decoder.value, room).Err? {
      assert Future(input, s) == Outcome([], DecodeFailed);
    } else if s.decoder.Some? && Pull(s.decoder.value, room).value.0 != [] {
      PullTakesFront(s.decoder.value, room, rest);
    } else {
      var cleared := s.(decoder := None);
      if s.decoder.Some? {
        PullEmptyMeansDrained(s.decoder.value, room, rest);
      }
      assert Future(input, cleared) == Future(input, s);
      LoadStepKeepsFuture(input, cleared);
      var (loaded, r1) := LoadStep(input, cleared);
      if r1.Ok? && !loaded.done {
        assert Drain(input, s, room) == Drain(input, loaded, room);
        DrainFuture(input, loaded, room);
      }
    }
  }

  /** `read` keeps the state valid, fills at most the buffer, reports 0 only
      once the stream is over, and changes nothing once it is. */
  lemma ReadStepShape(input: Input, s: State, room: nat)
    requires s.Valid()
    ensures var (s', r, out) := ReadStep(input, s, room);
      && s'.Valid()
      && (r.Ok? ==> r.value == |out| <= room)
      && (r == Ok(0) ==> s'.done)
      && (s.done ==> s' == s && r == Ok(0))
      && s'.readSize >= s.readSize
  {
    if !s.done {
      DrainShape(input, s, room);
    }
  }

  /** Into a non-empty buffer, `read` yields the front of what the reader still
      produces and leaves the rest for later. */
  lemma ReadStepYields(input: Input, s: State, room: nat)
    requires s.Valid() && room > 0
    ensures var (s', r, out) := ReadStep(input, s, room);
      s'.Valid() && Yields(Future(input, s), Future(input, s'), r, out)
  {
    if !s.done {
      DrainFuture(input, s, room);
    }
  }

  /** Bytes the active decoder still holds are served without a byte read from the source. */
  lemma ActiveDecoderServesFirst(input: Input, s: State, room: nat)
    requires s.Valid() && !s.done && room > 0
    requires s.decoder.Some? && s.decoder.value.Pending() != []
    ensures var (s', r, out) := ReadStep(input, s, room);
      && r.Ok? && r.value > 0
      && s'.pos == s.pos && s'.readSize == s.readSize && s'.flags == s.flags && !s'.done
  {
  }

  /** A `read` into an empty buffer discards the active chunk and every chunk
      after it: the stream is over once it returns. */
  lemma EmptyBufferEndsStream(input: Input, s: State)
    requires s.Valid()
    ensures ReadStep(input, s, 0).1 == Ok(0) && ReadStep(input, s, 0).0.done
  {
    if !s.done {
      DrainShape(input, s, 0);
    }
  }
}
