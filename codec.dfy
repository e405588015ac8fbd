/** The chunk codec: turns one chunk's payload into a byte producer, either a
    raw passthrough or an XZ decompressor. */
module Codec {
  import opened Errors
  import opened Bytes

  /** The XZ stream signature every compressed chunk starts with. */
  const LZMA_MAGIC: seq<byte> := [0xFD, 0x37, 0x7A, 0x58, 0x5A, 0x00]

  /** The payload size that marks a chunk as stored uncompressed (16 MiB). */
  const RAW_CHUNK_SIZE: nat := 0x100_0000

  /** What the XZ decoder produces from a compressed payload: its output bytes,
      and whether it reaches the end of the stream cleanly (`intact`) or fails
      with a decoding error once those bytes are produced. */
  datatype Inflated = Inflated(bytes: seq<byte>, intact: bool)

  /** XZ decompression, a foreign library, is a parameter of the model. */
  type Inflater = seq<byte> -> Inflated

  /** How a stream, or what remains of it, ends. */
  datatype Ending =
    | EndOfStream           // reads return 0 from here on
    | LoadFailed(e: Error)  // a chunk could not be loaded; reads return 0 from here on
    | DecodeFailed          // the active decoder raises an error; reads fail from here on

  /** The bytes a reader will still produce, and how it ends after them. */
  datatype Outcome = Outcome(bytes: seq<byte>, ending: Ending)

  /** `first` followed by `next`: `next` is reached only if `first` ends cleanly. */
  function Then(first: Outcome, next: Outcome): Outcome
  {
    if first.ending == EndOfStream then Outcome(first.bytes + next.bytes, next.ending) else first
  }

  lemma ThenAssociative(a: Outcome, b: Outcome, c: Outcome)
    ensures Then(Then(a, b), c) == Then(a, Then(b, c))
  {
  }

  /** The active chunk decoder: the boxed `dyn Read` of the reader, as a value.
      `Raw` is a cursor over the payload; `Compressed` is the XZ decoder, seen
      as a cursor over its output. */
  datatype Producer =
    | Raw(data: seq<byte>, pos: nat)
    | Compressed(out: seq<byte>, pos: nat, intact: bool)
  {
    function Output(): seq<byte>
    {
      if Raw? then data else out
    }

    predicate Valid()
    {
      pos <= |Output()|
    }

    /** The bytes not produced yet. */
    function Pending(): seq<byte>
      requires Valid()
    {
      Output()[pos..]
    }

    /** What this producer still yields. */
    function Rest(): Outcome
      requires Valid()
    {
      Outcome(Pending(), if Compressed? && !intact then DecodeFailed else EndOfStream)
    }
  }

  /** One `read` call on a producer with room for `room` bytes: the bytes it
      yields and the producer afterwards. */
  function Pull(p: Producer, room: nat): (r: Result<(seq<byte>, Producer)>)
    requires p.Valid()
    ensures r.Err? <==> room > 0 && p.Rest() == Outcome([], DecodeFailed)
    ensures r.Err? ==> r.error == CorruptData
    ensures r.Ok? ==> r.value.1.Valid() && |r.value.0| <= room
    ensures r.Ok? ==> p.Pending() == r.value.0 + r.value.1.Pending()
    ensures r.Ok? ==> r.value.1.Rest().ending == p.Rest().ending
    ensures r.Ok? && room > 0 && p.Pending() != [] ==> r.value.0 != []
  {
    var n := if room < |p.Pending()| then room else |p.Pending()|;
    if room > 0 && n == 0 && p.Compressed? && !p.intact then Err(CorruptData)
    else
      var q := p.(pos := p.pos + n);
      assert p.Pending() == p.Pending()[..n] + q.Pending();
      Ok((p.Pending()[..n], q))
  }

  /** A pull that yields bytes takes them off the front of what the producer,
      and whatever follows it, still produce. */
  lemma PullTakesFront(p: Producer, room: nat, next: Outcome)
    requires p.Valid() && Pull(p, room).Ok? && Pull(p, room).value.0 != []
    ensures var (bytes, q) := Pull(p, room).value;
      var before := Then(p.Rest(), next);
      && |bytes| <= |before.bytes|
      && bytes == before.bytes[..|bytes|]
      && Then(q.Rest(), next) == Outcome(before.bytes[|bytes|..], before.ending)
  {
    var (bytes, q) := Pull(p, room).value;
    var before := Then(p.Rest(), next);
    if p.Rest().ending == EndOfStream {
      assert before.bytes == bytes + (q.Pending() + next.bytes);
    } else {
      assert before.bytes == bytes + q.Pending();
    }
  }

  /** A pull into a non-empty buffer that yields nothing finds a producer with
      nothing left to give. */
  lemma PullEmptyMeansDrained(p: Producer, room: nat, next: Outcome)
    requires p.Valid() && room > 0 && Pull(p, room).Ok? && Pull(p, room).value.0 == []
    ensures Then(p.Rest(), next) == next
  {
    assert p.Rest() == Outcome([], EndOfStream);
    assert [] + next.bytes == next.bytes;
  }

  /** Chooses the producer for a chunk payload by its size: a 16 MiB chunk is
      passed through, any other must start with the XZ signature. */
  function Decode(payload: seq<byte>, inflate: Inflater): (r: Result<Producer>)
    ensures r.Ok? ==> r.value.Valid() && r.value.Pending() == r.value.Output()
    ensures |payload| == RAW_CHUNK_SIZE ==> r.Ok? && r.value.Rest() == Outcome(payload, EndOfStream)
    ensures |payload| != RAW_CHUNK_SIZE ==>
      (r.Ok? <==> |payload| >= 6 && payload[..6] == LZMA_MAGIC)
    ensures |payload| != RAW_CHUNK_SIZE && r.Ok? ==>
      r.value.Rest() == Outcome(inflate(payload).bytes,
                                if inflate(payload).intact then EndOfStream else DecodeFailed)
    ensures |payload| != RAW_CHUNK_SIZE && |payload| < 6 ==> r == Err(PayloadTooShort)
    ensures |payload| != RAW_CHUNK_SIZE && |payload| >= 6 && payload[..6] != LZMA_MAGIC ==>
      r == Err(BadLzmaMagic)
  {
    if |payload| != RAW_CHUNK_SIZE then
      if |payload| < 6 then Err(PayloadTooShort)
      else if payload[..6] != LZMA_MAGIC then Err(BadLzmaMagic)
      else
        var z := inflate(payload);
        Ok(Compressed(z.bytes, 0, z.intact))
    else
      Ok(Raw(payload, 0))
  }
}
