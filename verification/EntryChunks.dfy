/** Reading one entry, whole or as a stream of chunks (files/zip.rs). */
module EntryReading {
  import opened Words
  import opened Wrappers
  import opened ZipFormat
  import opened ZipReader

  /**
   What the inflater makes of an entry's compressed bytes: the output it can produce, and whether
   it then breaks off with an error instead of ending.
   */
  datatype Inflated = Inflated(output: seq<byte>, broken: bool)
  type Inflater = seq<byte> -> Inflated

  /** Where an entry's data starts: behind its local header, whose own lengths count. */
  function DataOffset(file: seq<byte>, entry: ZipEntry): (r: Result<nat, ZipError>)
    ensures r.Ok? ==> r.value + entry.compressedSize <= |file|
  {
    var header :- ReadAt(file, entry.localHeaderOffset, LOCAL_MIN);
    if U32At(header, 0) != LOCAL_SIG then Err(CorruptLocalHeader)
    else
      var offset: nat := entry.localHeaderOffset + LOCAL_MIN + U16At(header, 26) + U16At(header, 28);
      if offset + entry.compressedSize > |file| then Err(UnexpectedEnd) else Ok(offset)
  }

  /** One byte past the declaration, so that an overlong entry is seen as overlong. */
  function Limit(declared: u64): u64 {
    if declared == 0xffff_ffff_ffff_ffff then declared else declared + 1
  }

  function InflateEntry(inflate: Inflater, compressed: seq<byte>, declared: u64): Result<seq<byte>, ZipError> {
    var run := inflate(compressed);
    if |run.output| < Limit(declared) && run.broken then Err(NotInflatable)
    else
      var got := if |run.output| < Limit(declared) then run.output else run.output[..Limit(declared)];
      if |got| != declared then Err(WrongUncompressedSize) else Ok(got)
  }

  /** One entry, buffered. */
  function ReadEntry(inflate: Inflater, file: seq<byte>, entry: ZipEntry): (r: Result<seq<byte>, ZipError>)
    ensures r.Ok? ==> |r.value| == entry.uncompressedSize
  {
    var offset :- DataOffset(file, entry);
    if entry.compression == 0 then
      var data :- ReadAt(file, offset, entry.compressedSize);
      if |data| != entry.uncompressedSize then Err(WrongUncompressedSize) else Ok(data)
    else if entry.compression == 8 then
      InflateEntry(inflate, file[offset..offset + entry.compressedSize], entry.uncompressedSize)
    else Err(UnsupportedMethod)
  }

  /** A size lie is never believed: an entry reads as exactly what the whole inflater output is. */
  lemma InflatesToExactlyTheDeclaredSize(inflate: Inflater, compressed: seq<byte>, declared: u64)
    requires declared <= MAX_SAFE_INTEGER
    ensures var run := inflate(compressed);
            InflateEntry(inflate, compressed, declared).Ok? <==> !run.broken && |run.output| == declared
    ensures InflateEntry(inflate, compressed, declared).Ok? ==>
              InflateEntry(inflate, compressed, declared).value == inflate(compressed).output
    ensures InflateEntry(inflate, compressed, declared).Err? ==>
              var run := inflate(compressed);
              InflateEntry(inflate, compressed, declared).error
              == if run.broken && |run.output| <= declared then NotInflatable else WrongUncompressedSize
  {
  }

  // ---- Streaming ------------------------------------------------------------------------------

  const DEFAULT_CHUNK_BYTES := 0x10_0000

  /**
   What an entry's bytes are read out of: the archive file itself, or the inflater over it. How
   many bytes one read yields is up to the source, as long as it is at least one.
   */
  class ByteSource {
    const output: seq<byte>
    const broken: bool
    var position: nat

    ghost predicate Valid()
      reads this
    {
      position <= |output|
    }

    constructor (output: seq<byte>, broken: bool)
      ensures Valid() && fresh(this) && position == 0 && this.output == output && this.broken == broken
    {
      this.output, this.broken, position := output, broken, 0;
    }

    /** At most `room` next bytes: none at the end, an error where the source breaks off. */
    method Read(room: nat) returns (r: Result<seq<byte>, ZipError>)
      requires Valid() && room > 0
      modifies this
      ensures Valid()
      ensures r.Err? <==> old(position) == |output| && broken
      ensures r.Err? ==> position == old(position)
      ensures r.Ok? ==> old(position) <= position <= old(position) + room && r.value == output[old(position)..position]
      ensures r.Ok? ==> (r.value == [] <==> old(position) == |output|)
    {
      if position == |output| {
        return if broken then Err(NotInflatable) else Ok([]);
      }
      var n :| 1 <= n <= room && position + n <= |output|;
      r := Ok(output[position..position + n]);
      position := position + n;
    }
  }

  class EntryChunks {
    const chunkBytes: nat
    const declared: u64
    const source: ByteSource
    var produced: nat
    var finished: bool
    /** The bytes of the chunks handed out so far. */
    ghost var handed: seq<byte>

    ghost predicate Valid()
      reads this, source
    {
      && source.Valid()
      && chunkBytes > 0
      && (!finished ==>
            && handed == source.output[..source.position]
            && |handed| == produced <= declared)
    }

    constructor (chunkBytes: nat, declared: u64, source: ByteSource)
      requires chunkBytes > 0 && source.Valid() && source.position == 0
      ensures Valid() && fresh(this) && !finished && handed == []
      ensures this.chunkBytes == chunkBytes && this.declared == declared && this.source == source
    {
      this.chunkBytes, this.declared, this.source := chunkBytes, declared, source;
      produced, finished, handed := 0, false, [];
    }

    /** Reads until the buffer is full or the entry ends. */
    method Fill() returns (r: Result<seq<byte>, ZipError>)
      requires Valid() && !finished
      modifies this`finished, source
      ensures source.Valid() && old(source.position) <= source.position
      ensures r.Ok? ==> r.value == source.output[old(source.position)..source.position] && |r.value| <= chunkBytes
      ensures r.Ok? && !finished ==> |r.value| == chunkBytes
      ensures r.Ok? && finished ==> source.position == |source.output| && !source.broken
      ensures r.Err? ==> source.position == |source.output| && source.broken
      ensures source.position <= old(source.position) + chunkBytes
    {
      var buffer: seq<byte> := [];
      while |buffer| < chunkBytes
        invariant source.Valid() && old(source.position) <= source.position
        invariant buffer == source.output[old(source.position)..source.position] && |buffer| <= chunkBytes
        invariant !finished
        decreases chunkBytes - |buffer|
      {
        var step :- source.Read(chunkBytes - |buffer|);
        if step == [] {
          finished := true;
          break;
        }
        buffer := buffer + step;
      }
      return Ok(buffer);
    }

    /**
     The next chunk. It refuses as soon as more came out than was declared, and at the end unless
     exactly as much did.
     */
    method PullChunk() returns (r: Result<Option<seq<byte>>, ZipError>)
      requires Valid()
      modifies this, source
      ensures Valid()
      ensures old(finished) ==> r == Ok(None) && unchanged(this) && unchanged(source)
      ensures r.Ok? && r.value.Some? ==> 0 < |r.value.value| <= chunkBytes && handed == old(handed) + r.value.value
      ensures r.Ok? && r.value.Some? ==> source.position > old(source.position)
      ensures r.Ok? && r.value.None? ==> handed == old(handed)
      ensures !old(finished) && r.Ok? && r.value.None? ==> finished && handed == source.output && |handed| == declared && !source.broken
      ensures !old(finished) && finished && r.Ok? && r.value.Some? ==> handed == source.output && |handed| == declared && !source.broken
      ensures !old(finished) && r.Err? ==> source.broken || |source.output| != declared
      ensures r.Err? ==> finished
      ensures !old(finished) ==> source.position <= declared + chunkBytes
    {
      if finished {
        return Ok(None);
      }
      ghost var start := source.position;
      var fill := Fill();
      if fill.Err? {
        finished := true;
        return Err(fill.error);
      }
      var chunk := fill.value;
      produced := produced + |chunk|;
      if produced > declared || (finished && produced != declared) {
        finished := true;
        return Err(WrongUncompressedSize);
      }
      assert source.output[..start] + chunk == source.output[..source.position];
      if finished {
        assert source.output[..source.position] == source.output;
      }
      if chunk == [] {
        assert handed + chunk == handed;
        return Ok(None);
      }
      handed := handed + chunk;
      return Ok(Some(chunk));
    }
  }

  function Flat(chunks: seq<seq<byte>>): seq<byte> {
    if chunks == [] then [] else Flat(chunks[..|chunks| - 1]) + chunks[|chunks| - 1]
  }

  function ChunkCap(wanted: Option<nat>): (cap: nat)
    ensures cap > 0
  {
    var cap := if wanted.Some? then wanted.value else DEFAULT_CHUNK_BYTES;
    if cap == 0 then 1 else cap
  }

  /** A mebibyte where nothing is asked for, and never less than a byte. */
  lemma CapsAre(wanted: Option<nat>)
    ensures ChunkCap(wanted) == match wanted case None => 1048576 case Some(n) => if n > 1 then n else 1
  {
  }

  /** Whether an entry can be opened as a stream. */
  predicate Streams(file: seq<byte>, entry: ZipEntry) {
    && DataOffset(file, entry).Ok?
    && (entry.compression == 8 || (entry.compression == 0 && entry.compressedSize == entry.uncompressedSize))
  }

  /** What the stream of an entry is read out of: its own bytes where stored, the inflater's else. */
  function StreamOf(inflate: Inflater, file: seq<byte>, entry: ZipEntry): Inflated
    requires Streams(file, entry)
  {
    var compressed := file[DataOffset(file, entry).value..DataOffset(file, entry).value + entry.compressedSize];
    if entry.compression == 0 then Inflated(compressed, false) else inflate(compressed)
  }

  /** The buffered read in the same terms. */
  lemma ReadMeansExactStream(inflate: Inflater, file: seq<byte>, entry: ZipEntry)
    requires entry.uncompressedSize <= MAX_SAFE_INTEGER && |file| <= MAX_SAFE_INTEGER
    ensures ReadEntry(inflate, file, entry).Ok? <==>
              && Streams(file, entry)
              && !StreamOf(inflate, file, entry).broken
              && |StreamOf(inflate, file, entry).output| == entry.uncompressedSize
    ensures ReadEntry(inflate, file, entry).Ok? ==> ReadEntry(inflate, file, entry).value == StreamOf(inflate, file, entry).output
  {
    hide DataOffset;
  }

  method ChunksFrom(inflate: Inflater, file: seq<byte>, entry: ZipEntry, maxChunk: Option<nat>)
    returns (r: Result<EntryChunks, ZipError>)
    ensures r.Ok? <==> Streams(file, entry)
    ensures r.Ok? ==>
              && r.value.Valid() && fresh(r.value) && fresh(r.value.source)
              && !r.value.finished && r.value.handed == [] && r.value.declared == entry.uncompressedSize
              && r.value.chunkBytes <= ChunkCap(maxChunk) && r.value.chunkBytes <= Limit(entry.uncompressedSize) + 1
              && r.value.source.output == StreamOf(inflate, file, entry).output
              && r.value.source.broken == StreamOf(inflate, file, entry).broken
  {
    var cap := ChunkCap(maxChunk);
    if entry.compression != 0 && entry.compression != 8 {
      return Err(UnsupportedMethod);
    }
    var offset :- DataOffset(file, entry);
    var range := file[offset..offset + entry.compressedSize];
    var source;
    if entry.compression == 0 {
      if entry.compressedSize != entry.uncompressedSize {
        return Err(WrongUncompressedSize);
      }
      source := new ByteSource(range, false);
    } else {
      source := new ByteSource(inflate(range).output, inflate(range).broken);
    }
    var wanted := Limit(entry.uncompressedSize);
    var length := if wanted < 1 then 1 else if wanted > cap then cap else wanted;
    var chunks := new EntryChunks(length, entry.uncompressedSize, source);
    return Ok(chunks);
  }

  /**
   Streaming an entry and reading it whole are the same operation: whatever the read granularity
   and the cap, one succeeds exactly when the other does, the chunks put together are the buffered
   bytes, and no chunk exceeds the cap. An entry that lies about its size is refused within one
   chunk of the declaration.
   */
  method DrainEntry(inflate: Inflater, file: seq<byte>, entry: ZipEntry, maxChunk: Option<nat>)
    returns (r: Result<seq<seq<byte>>, ZipError>, taken: nat)
    requires entry.uncompressedSize <= MAX_SAFE_INTEGER && |file| <= MAX_SAFE_INTEGER
    ensures r.Ok? <==> ReadEntry(inflate, file, entry).Ok?
    ensures r.Ok? ==> Flat(r.value) == ReadEntry(inflate, file, entry).value
    ensures r.Ok? ==> forall i :: 0 <= i < |r.value| ==> 0 < |r.value[i]| <= ChunkCap(maxChunk)
    ensures taken <= entry.uncompressedSize + ChunkCap(maxChunk)
  {
    hide ReadEntry, Streams, StreamOf;
    taken := 0;
    ReadMeansExactStream(inflate, file, entry);
    var attempt := ChunksFrom(inflate, file, entry, maxChunk);
    if attempt.Err? {
      return Err(attempt.error), 0;
    }
    var stream := attempt.value;
    var chunks: seq<seq<byte>> := [];
    while true
      invariant stream.Valid() && fresh(stream) && fresh(stream.source)
      invariant Flat(chunks) == stream.handed
      invariant forall i :: 0 <= i < |chunks| ==> 0 < |chunks[i]| <= ChunkCap(maxChunk)
      invariant taken == stream.source.position <= stream.declared + stream.chunkBytes
      invariant stream.finished ==> stream.handed == stream.source.output && |stream.handed| == stream.declared && !stream.source.broken
      decreases |stream.source.output| - stream.source.position
    {
      var pulled := stream.PullChunk();
      taken := stream.source.position;
      if pulled.Err? {
        return Err(pulled.error), taken;
      }
      if pulled.value.None? {
        return Ok(chunks), taken;
      }
      var chunk := pulled.value.value;
      assert (chunks + [chunk])[..|chunks|] == chunks;
      chunks := chunks + [chunk];
    }
  }
}
