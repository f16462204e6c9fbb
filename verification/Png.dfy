/** PNG: the encoder behind previews (previews/png.rs) and the decoder that checks icons (tools/png.ts). */
module Png {
  import opened Words
  import opened Wrappers
  import Crc

  const SIGNATURE: seq<byte> := [137, 80, 78, 71, 13, 10, 26, 10]
  const IHDR: seq<byte> := [73, 72, 68, 82]
  const IDAT: seq<byte> := [73, 68, 65, 84]
  const IEND: seq<byte> := [73, 69, 78, 68]
  const WORD_LIMIT := 0x1_0000_0000
  const USIZE_LIMIT := 0x1_0000_0000_0000_0000

  /** A zlib compressor, and a decompressor that may refuse. */
  type Deflater = seq<byte> -> seq<byte>
  type Inflater = seq<byte> -> Option<seq<byte>>

  ghost predicate Undoes(inflate: Inflater, deflate: Deflater) {
    forall data :: inflate(deflate(data)) == Some(data)
  }

  datatype EncodeError = ZeroDimension | WrongLength

  // ---- Encoding -------------------------------------------------------------------------------

  function Chunk(kind: seq<byte>, data: seq<byte>): seq<byte> {
    Be32(|data| % WORD_LIMIT) + kind + data + Be32(Crc.Crc32(kind + data))
  }

  function HeaderData(width: u32, height: u32): (s: seq<byte>)
    ensures |s| == 13
  {
    Be32(width) + Be32(height) + [8, 2, 0, 0, 0]
  }

  /** Whole rows, each behind a filter byte; an incomplete last row is left out. */
  function Scanlines(rgb: seq<byte>, stride: nat): seq<byte>
    requires stride > 0
  {
    if |rgb| < stride then [] else [0] + rgb[..stride] + Scanlines(rgb[stride..], stride)
  }

  /** The size the buffer is checked against, in 64-bit arithmetic. */
  function WantedLength(width: u32, height: u32): nat {
    (width * 3 * height) % USIZE_LIMIT
  }

  function Encoded(deflate: Deflater, rgb: seq<byte>, width: u32, height: u32): Result<seq<byte>, EncodeError> {
    if width == 0 || height == 0 then Err(ZeroDimension)
    else if |rgb| != WantedLength(width, height) then Err(WrongLength)
    else Ok(SIGNATURE + Chunk(IHDR, HeaderData(width, height)) + Chunk(IDAT, deflate(Scanlines(rgb, width * 3))) + Chunk(IEND, []))
  }

  method WriteChunk(out: seq<byte>, kind: seq<byte>, data: seq<byte>) returns (more: seq<byte>)
    ensures more == out + Chunk(kind, data)
  {
    hide Be32, Crc.Crc32;
    more := out + Be32(|data| % WORD_LIMIT);
    more := more + kind;
    more := more + data;
    var crc := Crc.TableCrc32([kind, data]);
    TwoParts(kind, data);
    more := more + Be32(crc);
    Joined(out, Be32(|data| % WORD_LIMIT), kind, data, Be32(crc));
  }

  lemma TwoParts(a: seq<byte>, b: seq<byte>)
    ensures Crc.Flat([a, b]) == a + b
  {
    assert [a, b][..1] == [a] && [a][..0] == [];
    assert Crc.Flat([a]) == [] + a;
  }

  lemma Joined(out: seq<byte>, a: seq<byte>, b: seq<byte>, c: seq<byte>, d: seq<byte>)
    ensures out + a + b + c + d == out + (a + b + c + d)
  {
  }

  /** The rows, one write for the filter byte and one for the row. */
  method FilteredRows(rgb: seq<byte>, stride: nat) returns (lines: seq<byte>)
    requires stride > 0
    ensures lines == Scanlines(rgb, stride)
  {
    lines := [];
    var at := 0;
    assert [] + Scanlines(rgb, stride) == Scanlines(rgb, stride) && rgb[0..] == rgb;
    while at + stride <= |rgb|
      invariant at <= |rgb| && Scanlines(rgb, stride) == lines + Scanlines(rgb[at..], stride)
    {
      var rest := rgb[at..];
      assert rest[stride..] == rgb[at + stride..] && rest[..stride] == rgb[at..at + stride];
      var more := lines + [0] + rgb[at..at + stride];
      assert lines + ([0] + rest[..stride] + Scanlines(rest[stride..], stride)) == more + Scanlines(rest[stride..], stride);
      lines := more;
      at := at + stride;
    }
    assert lines + [] == lines;
  }

  method EncodePng(deflate: Deflater, rgb: seq<byte>, width: u32, height: u32) returns (r: Result<seq<byte>, EncodeError>)
    ensures r == Encoded(deflate, rgb, width, height)
  {
    hide Chunk, Be32, Scanlines;
    if width == 0 || height == 0 {
      return Err(ZeroDimension);
    }
    if |rgb| != WantedLength(width, height) {
      return Err(WrongLength);
    }
    var lines := FilteredRows(rgb, width * 3);
    var out := WriteChunk(SIGNATURE, IHDR, HeaderData(width, height));
    out := WriteChunk(out, IDAT, deflate(lines));
    out := WriteChunk(out, IEND, []);
    return Ok(out);
  }

  // ---- Decoding -------------------------------------------------------------------------------

  datatype Header = Header(width: u32, height: u32, bitDepth: byte, colourType: byte, interlaced: bool)

  datatype DecodeError =
    | TooShort | BadSignature | FirstChunkIsNotHeader | UnknownColourType | Interlaced
    | ChunkRunsPastTheEnd | BadCrc | NoEnd | TrailingBytes | NoImageData | NotInflatable | WrongSize

  function ReadPngSize(bytes: seq<byte>): Option<(u32, u32)> {
    if |bytes| < 24 || bytes[..8] != SIGNATURE || bytes[12..16] != IHDR then None
    else Some((BeU32At(bytes, 16), BeU32At(bytes, 20)))
  }

  function PngSize(bytes: seq<byte>): Result<Header, DecodeError> {
    if |bytes| < 33 then Err(TooShort)
    else if bytes[..8] != SIGNATURE then Err(BadSignature)
    else if bytes[12..16] != IHDR then Err(FirstChunkIsNotHeader)
    else Ok(Header(BeU32At(bytes, 16), BeU32At(bytes, 20), bytes[24], bytes[25], bytes[28] != 0))
  }

  function Channels(colourType: byte): Option<nat> {
    if colourType == 0 || colourType == 3 then Some(1)
    else if colourType == 2 then Some(3)
    else if colourType == 4 then Some(2)
    else if colourType == 6 then Some(4)
    else None
  }

  /** Where the chunk walk stands: image data seen, the end chunk seen, the next offset. */
  datatype Walk = Walk(data: seq<byte>, images: nat, sawEnd: bool, offset: nat)

  function AfterChunk(w: Walk, kind: seq<byte>, data: seq<byte>): Walk {
    Walk(
      if kind == IDAT then w.data + data else w.data,
      if kind == IDAT then w.images + 1 else w.images,
      w.sawEnd || kind == IEND,
      w.offset + 12 + |data|)
  }

  function NextChunk(bytes: seq<byte>, w: Walk): (r: Result<Walk, DecodeError>)
    requires w.offset + 12 <= |bytes|
    ensures r.Ok? ==> w.offset + 12 <= r.value.offset <= |bytes|
  {
    var end := w.offset + 8 + BeU32At(bytes, w.offset);
    if end + 4 > |bytes| then Err(ChunkRunsPastTheEnd)
    else if BeU32At(bytes, end) != Crc.Crc32(bytes[w.offset + 4..end]) then Err(BadCrc)
    else Ok(AfterChunk(w, bytes[w.offset + 4..w.offset + 8], bytes[w.offset + 8..end]))
  }

  function WalkChunks(bytes: seq<byte>, w: Walk): Result<Walk, DecodeError>
    decreases |bytes| - w.offset
  {
    if w.offset + 12 > |bytes| then Ok(w)
    else
      var next :- NextChunk(bytes, w);
      WalkChunks(bytes, next)
  }

  function BytesPerRow(header: Header, channels: nat): nat {
    (header.width * channels * header.bitDepth + 7) / 8
  }

  function CheckPixels(inflate: Inflater, bytes: seq<byte>, header: Header, channels: nat, w: Walk): Result<(Header, nat), DecodeError> {
    if !w.sawEnd then Err(NoEnd)
    else if w.offset != |bytes| then Err(TrailingBytes)
    else if w.images == 0 then Err(NoImageData)
    else
      var inflated := inflate(w.data);
      if inflated.None? then Err(NotInflatable)
      else if |inflated.value| != header.height * (1 + BytesPerRow(header, channels)) then Err(WrongSize)
      else Ok((header, |inflated.value|))
  }

  function Decoded(inflate: Inflater, bytes: seq<byte>): Result<(Header, nat), DecodeError> {
    var header :- PngSize(bytes);
    var channels := Channels(header.colourType);
    if channels.None? then Err(UnknownColourType)
    else if header.interlaced then Err(Interlaced)
    else
      var w :- WalkChunks(bytes, Walk([], 0, false, 8));
      CheckPixels(inflate, bytes, header, channels.value, w)
  }

  lemma WalkUnfolds(bytes: seq<byte>, w: Walk)
    requires w.offset + 12 <= |bytes|
    ensures var end := w.offset + 8 + BeU32At(bytes, w.offset);
            if end + 4 > |bytes| then WalkChunks(bytes, w) == Err(ChunkRunsPastTheEnd)
            else if BeU32At(bytes, end) != Crc.Crc32(bytes[w.offset + 4..end]) then WalkChunks(bytes, w) == Err(BadCrc)
            else WalkChunks(bytes, w) == WalkChunks(bytes, AfterChunk(w, bytes[w.offset + 4..w.offset + 8], bytes[w.offset + 8..end]))
  {
    hide BeU32At, Crc.Crc32;
  }

  method DecodePng(inflate: Inflater, bytes: seq<byte>) returns (r: Result<(Header, nat), DecodeError>)
    ensures r == Decoded(inflate, bytes)
  {
    hide BeU32At, Crc.Crc32, CheckPixels, Channels, WalkChunks, NextChunk;
    var header :- PngSize(bytes);
    var channels := Channels(header.colourType);
    if channels.None? {
      return Err(UnknownColourType);
    }
    if header.interlaced {
      return Err(Interlaced);
    }
    var data: seq<byte>, images, sawEnd, offset := [], 0, false, 8;
    while offset + 12 <= |bytes|
      invariant 8 <= offset
      invariant WalkChunks(bytes, Walk([], 0, false, 8)) == WalkChunks(bytes, Walk(data, images, sawEnd, offset))
      decreases |bytes| - offset
    {
      WalkUnfolds(bytes, Walk(data, images, sawEnd, offset));
      var length := BeU32At(bytes, offset);
      var kind := bytes[offset + 4..offset + 8];
      var end := offset + 8 + length;
      if end + 4 > |bytes| {
        return Err(ChunkRunsPastTheEnd);
      }
      var expected := BeU32At(bytes, end);
      var actual := Crc.BitwiseCrc32(bytes[offset + 4..end]);
      if expected != actual {
        return Err(BadCrc);
      }
      if kind == IDAT {
        data := data + bytes[offset + 8..end];
        images := images + 1;
      }
      if kind == IEND {
        sawEnd := true;
      }
      offset := end + 4;
    }
    WalkEnds(bytes, Walk(data, images, sawEnd, offset));
    r := CheckPixels(inflate, bytes, header, channels.value, Walk(data, images, sawEnd, offset));
  }

  // ---- Round trip -----------------------------------------------------------------------------

  /** A written chunk is walked over whole, its CRC accepted. */
  lemma WalkOver(before: seq<byte>, kind: seq<byte>, data: seq<byte>, after: seq<byte>, w: Walk)
    requires |kind| == 4 && |data| < WORD_LIMIT && w.offset == |before|
    ensures |Chunk(kind, data)| == 12 + |data|
    ensures WalkChunks(before + Chunk(kind, data) + after, w) == WalkChunks(before + Chunk(kind, data) + after, AfterChunk(w, kind, data))
  {
    hide Be32, BeU32At, Crc.Crc32, AfterChunk;
    var bytes, at := before + Chunk(kind, data) + after, |before|;
    var end := at + 8 + |data|;
    var crc := Crc.Crc32(kind + data);
    assert bytes[at..at + 4] == Be32(|data|) && bytes[end..end + 4] == Be32(crc);
    ReadBe32(bytes, at, |data|);
    ReadBe32(bytes, end, crc);
    assert bytes[at + 4..end] == kind + data;
    assert bytes[at + 4..at + 8] == kind && bytes[at + 8..end] == data;
    assert NextChunk(bytes, w) == Ok(AfterChunk(w, kind, data));
  }

  lemma {:induction false} ScanlinesLength(rgb: seq<byte>, stride: nat, rows: nat)
    requires stride > 0 && |rgb| == stride * rows
    ensures |Scanlines(rgb, stride)| == rows * (1 + stride)
    decreases rows
  {
    if rows > 0 {
      assert |rgb[stride..]| == stride * (rows - 1);
      ScanlinesLength(rgb[stride..], stride, rows - 1);
    }
  }

  lemma HeaderReadBack(file: seq<byte>, width: u32, height: u32, rest: seq<byte>)
    requires file == SIGNATURE + Chunk(IHDR, HeaderData(width, height)) + rest
    ensures PngSize(file) == Ok(Header(width, height, 8, 2, false)) && ReadPngSize(file) == Some((width, height))
  {
    hide Be32, BeU32At, Crc.Crc32;
    assert |file| >= 33;
    assert file[..8] == SIGNATURE && file[12..16] == IHDR;
    assert file[16..20] == Be32(width) && file[20..24] == Be32(height);
    assert file[24..29] == [8, 2, 0, 0, 0];
    assert file[24] == file[24..29][0] && file[25] == file[24..29][1] && file[28] == file[24..29][4];
    ReadBe32(file, 16, width);
    ReadBe32(file, 20, height);
  }

  /** The walk over an encoder's file ends at its end, with the image data in hand. */
  lemma WholeWalk(width: u32, height: u32, idat: seq<byte>)
    requires |idat| < WORD_LIMIT
    ensures var file := SIGNATURE + Chunk(IHDR, HeaderData(width, height)) + Chunk(IDAT, idat) + Chunk(IEND, []);
            WalkChunks(file, Walk([], 0, false, 8)) == Ok(Walk(idat, 1, true, |file|))
  {
    hide Chunk, HeaderData, WalkChunks;
    var h, i, e := Chunk(IHDR, HeaderData(width, height)), Chunk(IDAT, idat), Chunk(IEND, []);
    var file := SIGNATURE + h + i + e;
    assert file == SIGNATURE + h + (i + e) && file == (SIGNATURE + h) + i + e && file == (SIGNATURE + h + i) + e + [];
    var w0 := Walk([], 0, false, 8);
    var w1 := Walk([], 0, false, 33);
    var w2 := Walk(idat, 1, false, 45 + |idat|);
    assert [] + idat == idat;
    WalkOver(SIGNATURE, IHDR, HeaderData(width, height), i + e, w0);
    assert AfterChunk(w0, IHDR, HeaderData(width, height)) == w1;
    WalkOver(SIGNATURE + h, IDAT, idat, e, w1);
    assert AfterChunk(w1, IDAT, idat) == w2;
    WalkOver(SIGNATURE + h + i, IEND, [], [], w2);
    WalkEnds(file, AfterChunk(w2, IEND, []));
  }

  lemma WalkEnds(bytes: seq<byte>, w: Walk)
    requires w.offset + 12 > |bytes|
    ensures WalkChunks(bytes, w) == Ok(w)
  {
  }

  /**
   The decoder accepts what the encoder wrote, and finds its dimensions, exactly when the 64-bit size
   check did not wrap around.
   */
  lemma DecodesWhatWasEncoded(inflate: Inflater, deflate: Deflater, rgb: seq<byte>, width: u32, height: u32)
    requires Undoes(inflate, deflate) && Encoded(deflate, rgb, width, height).Ok?
    requires |deflate(Scanlines(rgb, width * 3))| < WORD_LIMIT
    ensures var file := Encoded(deflate, rgb, width, height).value;
            && PngSize(file) == Ok(Header(width, height, 8, 2, false)) && ReadPngSize(file) == Some((width, height))
            && Decoded(inflate, file)
               == if width * 3 * height < USIZE_LIMIT then Ok((Header(width, height, 8, 2, false), height * (1 + 3 * width)))
                  else Err(WrongSize)
  {
    hide Chunk, HeaderData, WalkChunks, Scanlines, PngSize, ReadPngSize;
    var file := Encoded(deflate, rgb, width, height).value;
    var lines := Scanlines(rgb, width * 3);
    var h, i, e := Chunk(IHDR, HeaderData(width, height)), Chunk(IDAT, deflate(lines)), Chunk(IEND, []);
    assert file == SIGNATURE + h + (i + e);
    HeaderReadBack(file, width, height, i + e);
    WholeWalk(width, height, deflate(lines));
    assert inflate(deflate(lines)) == Some(lines);
    RowBytes(width);
    SizeOfRows(rgb, width, height);
  }

  lemma RowBytes(width: u32)
    ensures (width * 3 * 8 + 7) / 8 == 3 * width
  {
  }

  lemma SizeOfRows(rgb: seq<byte>, width: u32, height: u32)
    requires width > 0 && height > 0 && |rgb| == WantedLength(width, height)
    ensures |Scanlines(rgb, width * 3)| == height * (1 + 3 * width) <==> width * 3 * height < USIZE_LIMIT
  {
    if width * 3 * height < USIZE_LIMIT {
      ScanlinesLength(rgb, width * 3, height);
    } else {
      ScanlinesAreFew(rgb, width * 3);
      Products(width, height);
    }
  }

  lemma {:induction false} ScanlinesAreFew(rgb: seq<byte>, stride: nat)
    requires stride > 0
    ensures |Scanlines(rgb, stride)| <= 2 * |rgb|
  {
    if |rgb| >= stride {
      ScanlinesAreFew(rgb[stride..], stride);
    }
  }

  lemma Products(width: u32, height: u32)
    requires width * 3 * height >= USIZE_LIMIT
    ensures height * (1 + 3 * width) > 2 * WantedLength(width, height)
  {
  }

  const WRAPPING_WIDTH: u32 := 0xAAAA_AAAB
  const WRAPPING_HEIGHT: u32 := 0x8000_0000

  /**
   An image whose size wraps: three bytes for each of these pixels are 2^64 + 2^31, so a buffer of
   2^31 bytes is taken for whole, holds not even one row, and is written as a file the checker refuses.
   */
  lemma WrappedSizeIsRefused(inflate: Inflater, deflate: Deflater, rgb: seq<byte>)
    requires Undoes(inflate, deflate) && |deflate([])| < WORD_LIMIT && |rgb| == 0x8000_0000
    ensures var written := Encoded(deflate, rgb, WRAPPING_WIDTH, WRAPPING_HEIGHT);
            written.Ok? && Decoded(inflate, written.value) == Err(WrongSize)
  {
    hide Chunk, HeaderData, WalkChunks, PngSize, Decoded;
    assert WRAPPING_WIDTH * 3 * WRAPPING_HEIGHT == USIZE_LIMIT + 0x8000_0000;
    assert Scanlines(rgb, WRAPPING_WIDTH * 3) == [];
    DecodesWhatWasEncoded(inflate, deflate, rgb, WRAPPING_WIDTH, WRAPPING_HEIGHT);
  }

  // ---- The picture in the file ----------------------------------------------------------------

  /** Every row stands whole behind a zero: pixel by pixel, the picture is in the compressed data. */
  lemma {:induction false} RowsAreKept(rgb: seq<byte>, stride: nat, y: nat, at: nat, from: nat)
    requires stride > 0 && at == y * (1 + stride) && from == y * stride && from + stride <= |rgb|
    ensures at + 1 + stride <= |Scanlines(rgb, stride)|
    ensures Scanlines(rgb, stride)[at..at + 1 + stride] == [0] + rgb[from..from + stride]
    decreases y
  {
    hide Scanlines;
    PreviousRow(y, stride);
    FirstRow(rgb, stride);
    var lines := Scanlines(rgb, stride);
    if y > 0 {
      RowsAreKept(rgb[stride..], stride, y - 1, at - 1 - stride, from - stride);
      SliceOfSlice(lines, 1 + stride, |lines|, at - 1 - stride, at);
      SliceOfSlice(rgb, stride, |rgb|, from - stride, from);
      assert lines[1 + stride..|lines|] == lines[1 + stride..] && rgb[stride..|rgb|] == rgb[stride..];
    }
  }

  lemma PreviousRow(y: nat, stride: nat)
    ensures y == 0 ==> y * (1 + stride) == 0 && y * stride == 0
    ensures y > 0 ==> (y - 1) * (1 + stride) == y * (1 + stride) - 1 - stride >= 0 && (y - 1) * stride == y * stride - stride >= 0
  {
    if y > 0 {
      assert (y - 1) * stride >= 0;
    }
  }

  lemma FirstRow(rgb: seq<byte>, stride: nat)
    requires 0 < stride <= |rgb|
    ensures |Scanlines(rgb, stride)| >= 1 + stride
    ensures Scanlines(rgb, stride)[..1 + stride] == [0] + rgb[..stride]
    ensures Scanlines(rgb, stride)[1 + stride..] == Scanlines(rgb[stride..], stride)
  {
  }

  // ---- Any file, whoever wrote it -------------------------------------------------------------

  datatype WireChunk = WireChunk(kind: seq<byte>, data: seq<byte>)

  predicate IsChunk(c: WireChunk) {
    |c.kind| == 4 && |c.data| < WORD_LIMIT
  }

  /** Length, kind, data and CRC (PNG section 5.3). */
  function ChunkBytes(c: WireChunk): seq<byte> {
    Be32(|c.data| % WORD_LIMIT) + c.kind + c.data + Be32(Crc.Crc32(c.kind + c.data))
  }

  function ChunksBytes(chunks: seq<WireChunk>): seq<byte> {
    if chunks == [] then [] else ChunkBytes(chunks[0]) + ChunksBytes(chunks[1..])
  }

  /** The data of all chunks spelled "IDAT", put together. */
  function ImageData(chunks: seq<WireChunk>): seq<byte> {
    if chunks == [] then []
    else (if chunks[0].kind == [73, 68, 65, 84] then chunks[0].data else []) + ImageData(chunks[1..])
  }

  predicate HasKind(chunks: seq<WireChunk>, kind: seq<byte>) {
    chunks != [] && (chunks[0].kind == kind || HasKind(chunks[1..], kind))
  }

  /** The walk after those chunks. */
  function Walked(w: Walk, chunks: seq<WireChunk>): Walk
    decreases |chunks|
  {
    if chunks == [] then w else Walked(AfterChunk(w, chunks[0].kind, chunks[0].data), chunks[1..])
  }

  lemma {:induction false} WalkOverChunks(before: seq<byte>, chunks: seq<WireChunk>, tail: seq<byte>, w: Walk)
    requires (forall i :: 0 <= i < |chunks| ==> IsChunk(chunks[i])) && |tail| < 12 && w.offset == |before|
    ensures WalkChunks(before + ChunksBytes(chunks) + tail, w) == Ok(Walked(w, chunks))
    ensures Walked(w, chunks).offset == |before| + |ChunksBytes(chunks)|
    decreases |chunks|
  {
    hide ChunkBytes, WalkChunks, Chunk, AfterChunk;
    if chunks == [] {
      assert before + ChunksBytes(chunks) + tail == before + tail;
      WalkEnds(before + tail, w);
    } else {
      var c, rest := chunks[0], ChunksBytes(chunks[1..]);
      SameChunk(c);
      assert before + ChunksBytes(chunks) + tail == before + Chunk(c.kind, c.data) + (rest + tail);
      assert before + ChunksBytes(chunks) + tail == (before + ChunkBytes(c)) + rest + tail;
      WalkOver(before, c.kind, c.data, rest + tail, w);
      ChunkEndsAt(w, c);
      WalkOverChunks(before + ChunkBytes(c), chunks[1..], tail, AfterChunk(w, c.kind, c.data));
    }
  }

  lemma ChunkEndsAt(w: Walk, c: WireChunk)
    ensures AfterChunk(w, c.kind, c.data).offset == w.offset + 12 + |c.data|
  {
  }

  lemma OneChunk(w: Walk, c: WireChunk)
    ensures var next := AfterChunk(w, c.kind, c.data);
            && next.data == (if c.kind == IDAT then w.data + c.data else w.data)
            && (next.images > 0 <==> w.images > 0 || c.kind == IDAT) && (next.sawEnd <==> w.sawEnd || c.kind == IEND)
  {
  }

  /** What it has in hand then. */
  lemma {:induction false} WalkedHolds(w: Walk, chunks: seq<WireChunk>)
    ensures var last := Walked(w, chunks);
            && last.data == w.data + ImageData(chunks)
            && (last.images > 0 <==> w.images > 0 || HasKind(chunks, [73, 68, 65, 84]))
            && (last.sawEnd <==> w.sawEnd || HasKind(chunks, [73, 69, 78, 68]))
    decreases |chunks|
  {
    hide AfterChunk;
    if chunks == [] {
      assert w.data + [] == w.data;
    } else {
      var c := chunks[0];
      var next := AfterChunk(w, c.kind, c.data);
      OneChunk(w, c);
      WalkedHolds(next, chunks[1..]);
      assert c.kind == IDAT ==> (w.data + c.data) + ImageData(chunks[1..]) == w.data + (c.data + ImageData(chunks[1..]));
      assert [] + ImageData(chunks[1..]) == ImageData(chunks[1..]);
    }
  }

  lemma SameChunk(c: WireChunk)
    ensures ChunkBytes(c) == Chunk(c.kind, c.data)
  {
    hide Be32, Crc.Crc32;
  }

  /** Width, height, bit depth, colour type, compression, filter and interlace (PNG section 11.2.2). */
  function HeaderOf(width: u32, height: u32, depth: byte, colour: byte, interlace: byte): seq<byte> {
    Be32(width) + Be32(height) + [depth, colour, 0, 0, interlace]
  }

  /** A file: the signature, a header chunk, any chunks, and perhaps a few bytes too many. */
  function FileOf(header: seq<byte>, chunks: seq<WireChunk>, tail: seq<byte>): seq<byte> {
    [137, 80, 78, 71, 13, 10, 26, 10] + ChunksBytes([WireChunk([73, 72, 68, 82], header)] + chunks) + tail
  }

  /** Samples per pixel, by colour type (PNG table 11.1). */
  function SamplesOf(colour: byte): nat {
    match colour case 0 => 1 case 2 => 3 case 3 => 1 case 4 => 2 case 6 => 4 case _ => 0
  }

  /** Bytes of the pixels: one filter byte per row and the row's bits rounded up. */
  function PixelBytes(width: u32, height: u32, depth: byte, colour: byte): nat {
    height * (1 + (width * SamplesOf(colour) * depth + 7) / 8)
  }

  lemma HeaderIsRead(width: u32, height: u32, depth: byte, colour: byte, interlace: byte, chunks: seq<WireChunk>, tail: seq<byte>)
    ensures var file := FileOf(HeaderOf(width, height, depth, colour, interlace), chunks, tail);
            PngSize(file) == Ok(Header(width, height, depth, colour, interlace != 0)) && ReadPngSize(file) == Some((width, height))
  {
    hide Be32, BeU32At, Crc.Crc32;
    var header := HeaderOf(width, height, depth, colour, interlace);
    var c := WireChunk([73, 72, 68, 82], header);
    var file := FileOf(header, chunks, tail);
    assert ([c] + chunks)[1..] == chunks;
    assert file == SIGNATURE + (ChunkBytes(c) + (ChunksBytes(chunks) + tail));
    assert |ChunkBytes(c)| == 25 && ChunkBytes(c)[4..8] == IHDR && ChunkBytes(c)[8..21] == header;
    assert file[..8] == SIGNATURE && file[12..16] == IHDR && file[16..29] == header;
    assert file[16..20] == header[..4] == Be32(width) && file[20..24] == header[4..8] == Be32(height);
    assert file[24] == header[8] && file[25] == header[9] && file[28] == header[12];
    ReadBe32(file, 16, width);
    ReadBe32(file, 20, height);
  }

  /**
   The checker on any file of well-formed chunks: it is accepted exactly when its colour type is known, it is
   not interlaced, it has an end and image data and nothing behind them, and the data unpack to the
   bytes its dimensions call for.
   */
  lemma AnyPngIsChecked(
    inflate: Inflater, width: u32, height: u32, depth: byte, colour: byte, interlace: byte, chunks: seq<WireChunk>, tail: seq<byte>)
    requires (forall i :: 0 <= i < |chunks| ==> IsChunk(chunks[i])) && |tail| < 12
    ensures var r := Decoded(inflate, FileOf(HeaderOf(width, height, depth, colour, interlace), chunks, tail));
            var pixels := inflate(ImageData(chunks));
            r == if colour !in {0, 2, 3, 4, 6} then Err(UnknownColourType)
                 else if interlace != 0 then Err(Interlaced)
                 else if !HasKind(chunks, [73, 69, 78, 68]) then Err(NoEnd)
                 else if tail != [] then Err(TrailingBytes)
                 else if !HasKind(chunks, [73, 68, 65, 84]) then Err(NoImageData)
                 else if pixels.None? then Err(NotInflatable)
                 else if |pixels.value| != PixelBytes(width, height, depth, colour) then Err(WrongSize)
                 else Ok((Header(width, height, depth, colour, false), PixelBytes(width, height, depth, colour)))
  {
    hide WalkChunks, ChunksBytes, PngSize, ReadPngSize, HasKind, ImageData, HeaderOf, FileOf;
    HeaderIsRead(width, height, depth, colour, interlace, chunks, tail);
    HeaderSize(width, height, depth, colour, interlace);
    var w := FileIsWalked(HeaderOf(width, height, depth, colour, interlace), chunks, tail);
  }

  lemma FileIsWalked(header: seq<byte>, chunks: seq<WireChunk>, tail: seq<byte>) returns (w: Walk)
    requires (forall i :: 0 <= i < |chunks| ==> IsChunk(chunks[i])) && |tail| < 12 && |header| < WORD_LIMIT
    ensures WalkChunks(FileOf(header, chunks, tail), Walk([], 0, false, 8)) == Ok(w)
    ensures w.data == ImageData(chunks) && w.offset + |tail| == |FileOf(header, chunks, tail)|
    ensures w.images > 0 <==> HasKind(chunks, [73, 68, 65, 84])
    ensures w.sawEnd <==> HasKind(chunks, [73, 69, 78, 68])
  {
    hide WalkChunks, ChunksBytes, HasKind, ImageData, Walked;
    var first := WireChunk([73, 72, 68, 82], header);
    var all := [first] + chunks;
    assert forall i :: 0 <= i < |all| ==> IsChunk(all[i]);
    w := Walked(Walk([], 0, false, 8), all);
    WalkOverChunks(SIGNATURE, all, tail, Walk([], 0, false, 8));
    WalkedHolds(Walk([], 0, false, 8), all);
    FirstIsNeither(first, chunks);
    assert [] + ImageData(all) == ImageData(all);
  }

  lemma HeaderSize(width: u32, height: u32, depth: byte, colour: byte, interlace: byte)
    ensures |HeaderOf(width, height, depth, colour, interlace)| == 13
  {
  }

  lemma FirstIsNeither(first: WireChunk, chunks: seq<WireChunk>)
    requires first.kind == [73, 72, 68, 82]
    ensures ImageData([first] + chunks) == ImageData(chunks)
    ensures HasKind([first] + chunks, [73, 68, 65, 84]) <==> HasKind(chunks, [73, 68, 65, 84])
    ensures HasKind([first] + chunks, [73, 69, 78, 68]) <==> HasKind(chunks, [73, 69, 78, 68])
  {
    var all := [first] + chunks;
    assert all[1..] == chunks && first.kind[1] == 72;
    assert [] + ImageData(chunks) == ImageData(chunks);
  }

  /** What the encoder writes is such a file: eight bits of red, green and blue, one chunk of data. */
  lemma EncodedIsWire(deflate: Deflater, rgb: seq<byte>, width: u32, height: u32)
    requires Encoded(deflate, rgb, width, height).Ok?
    ensures Encoded(deflate, rgb, width, height).value
            == FileOf(
                 HeaderOf(width, height, 8, 2, 0),
                 [WireChunk([73, 68, 65, 84], deflate(Scanlines(rgb, width * 3))), WireChunk([73, 69, 78, 68], [])],
                 [])
  {
    hide Be32, Crc.Crc32, Scanlines, ChunkBytes;
    var a, b, c := WireChunk(IHDR, HeaderData(width, height)), WireChunk(IDAT, deflate(Scanlines(rgb, width * 3))), WireChunk(IEND, []);
    assert [a] + [b, c] == [a, b, c] && [a, b, c][1..] == [b, c] && [b, c][1..] == [c] && [c][1..] == [];
    SameChunk(a);
    SameChunk(b);
    SameChunk(c);
    assert ChunksBytes([]) == [] && ChunksBytes([c]) == ChunkBytes(c) + [];
    assert ChunksBytes([b, c]) == ChunkBytes(b) + ChunksBytes([c]);
    assert ChunksBytes([a, b, c]) == ChunkBytes(a) + ChunksBytes([b, c]);
  }

  /** A chunk whose check value is not its own is refused, wherever the walk meets it. */
  lemma WrongCrcIsRefused(before: seq<byte>, c: WireChunk, crc: u32, after: seq<byte>, w: Walk)
    requires IsChunk(c) && w.offset == |before| && crc != Crc.Crc32(c.kind + c.data)
    ensures WalkChunks(before + (Be32(|c.data|) + c.kind + c.data + Be32(crc)) + after, w) == Err(BadCrc)
  {
    hide Be32, BeU32At, Crc.Crc32;
    var bytes, at := before + (Be32(|c.data|) + c.kind + c.data + Be32(crc)) + after, |before|;
    var end := at + 8 + |c.data|;
    assert bytes[at..at + 4] == Be32(|c.data|) && bytes[end..end + 4] == Be32(crc) && bytes[at + 4..end] == c.kind + c.data;
    ReadBe32(bytes, at, |c.data|);
    ReadBe32(bytes, end, crc);
  }

  /** What does not start like a PNG is refused for what it lacks. */
  lemma StartIsChecked(inflate: Inflater, bytes: seq<byte>)
    ensures |bytes| < 33 ==> Decoded(inflate, bytes) == Err(TooShort)
    ensures |bytes| >= 33 && bytes[..8] != [137, 80, 78, 71, 13, 10, 26, 10] ==>
              Decoded(inflate, bytes) == Err(BadSignature) && ReadPngSize(bytes) == None
    ensures |bytes| >= 33 && bytes[..8] == [137, 80, 78, 71, 13, 10, 26, 10] && bytes[12..16] != [73, 72, 68, 82] ==>
              Decoded(inflate, bytes) == Err(FirstChunkIsNotHeader) && ReadPngSize(bytes) == None
    ensures ReadPngSize(bytes).Some?
            <==> |bytes| >= 24 && bytes[..8] == [137, 80, 78, 71, 13, 10, 26, 10] && bytes[12..16] == [73, 72, 68, 82]
  {
    hide WalkChunks, BeU32At;
  }
}
