/**
 The ZIP records on the wire (PKWARE APPNOTE 4.3.7, 4.3.12, 4.3.16): the layout the writer produces
 and the fields the reader takes from it (files/zip.rs, files/zip_write.rs).
 */
module ZipFormat {
  import opened Words

  /** One central-directory record, as the reader hands it out. */
  datatype ZipEntry = ZipEntry(
    name: string,
    compression: u16,
    compressedSize: u64,
    uncompressedSize: u64,
    localHeaderOffset: u64,
    flags: u16,
    crc: u32,
    modTime: u16,
    modDate: u16,
    versionMadeBy: u16,
    versionNeeded: u16,
    internalAttributes: u16,
    externalAttributes: u32)

  const EOCD_SIG: u32 := 0x0605_4b50
  const CD_SIG: u32 := 0x0201_4b50
  const LOCAL_SIG: u32 := 0x0403_4b50
  const ZIP64_LOCATOR_SIG: u32 := 0x0706_4b50
  const ZIP64_EOCD_SIG: u32 := 0x0606_4b50
  const EOCD_MIN := 22
  const CD_MIN := 46
  const LOCAL_MIN := 30
  const ZIP64_LOCATOR_SIZE := 20
  const ZIP64_EOCD_MIN := 56
  const ZIP64_EXTRA_ID := 1
  const MAX_COMMENT := 0xffff
  const U32_MAX := 0xffff_ffff
  const U16_MAX := 0xffff
  const MAX_SAFE_INTEGER := 0x1f_ffff_ffff_ffff
  const MAX_NON_ZIP64_ENTRIES := 0xfffe

  /** The fields a local file header and a central directory record share. */
  datatype CommonFields = CommonFields(
    versionNeeded: u16,
    flags: u16,
    compression: u16,
    modTime: u16,
    modDate: u16,
    crc: u32,
    compressedSize: u32,
    uncompressedSize: u32,
    name: seq<byte>,
    extra: seq<byte>)

  datatype CentralFields = CentralFields(
    common: CommonFields,
    versionMadeBy: u16,
    internalAttributes: u16,
    externalAttributes: u32,
    localHeaderOffset: u32)

  /** The words both records hold in the same order: version to date, then CRC to the lengths. */
  function Stamp(f: CommonFields): (s: seq<byte>)
    ensures |s| == 10
  {
    Le16(f.versionNeeded) + Le16(f.flags) + Le16(f.compression) + Le16(f.modTime) + Le16(f.modDate)
  }

  function Sizes(f: CommonFields): (s: seq<byte>)
    ensures |s| == 16
  {
    Le32(f.crc) + Le32(f.compressedSize) + Le32(f.uncompressedSize)
    + Le16(|f.name| % 0x1_0000) + Le16(|f.extra| % 0x1_0000)
  }

  /** Comment length and disk number are zero. */
  function Placement(f: CentralFields): (s: seq<byte>)
    ensures |s| == 14
  {
    Le32(0) + Le16(f.internalAttributes) + Le32(f.externalAttributes) + Le32(f.localHeaderOffset)
  }

  /** A local file header, field by field (APPNOTE 4.3.7). */
  function LocalHeader(f: CommonFields): (s: seq<byte>)
    ensures |s| == LOCAL_MIN + |f.name| + |f.extra|
  {
    Le32(LOCAL_SIG) + Stamp(f) + Sizes(f) + f.name + f.extra
  }

  /** A central directory record, field by field (APPNOTE 4.3.12). */
  function CentralHeader(f: CentralFields): (s: seq<byte>)
    ensures |s| == CD_MIN + |f.common.name| + |f.common.extra|
  {
    Le32(CD_SIG) + Le16(f.versionMadeBy) + Stamp(f.common) + Sizes(f.common) + Placement(f)
    + f.common.name + f.common.extra
  }

  /** A non-zip64 end record with no archive comment (APPNOTE 4.3.16). */
  function EndRecord(total: u16, cdSize: u32, cdOffset: u32): (s: seq<byte>)
    ensures |s| == EOCD_MIN
  {
    Le32(EOCD_SIG) + Le32(0) + Le16(total) + Le16(total) + Le32(cdSize) + Le32(cdOffset) + Le16(0)
  }

  // ---- Writing: words put at fixed offsets into a zeroed buffer -----------------------------

  /** The buffer holds `done` and nothing but zeros after it. */
  ghost predicate Holds(buffer: seq<byte>, done: seq<byte>) {
    && done <= buffer
    && forall i :: |done| <= i < |buffer| ==> buffer[i] == 0
  }

  /** Bytes nobody puts are zeros all the same. */
  lemma Skipped(buffer: seq<byte>, done: seq<byte>, zeros: seq<byte>)
    requires Holds(buffer, done) && |done| + |zeros| <= |buffer|
    requires forall i :: 0 <= i < |zeros| ==> zeros[i] == 0
    ensures Holds(buffer, done + zeros)
  {
  }

  lemma Joined5(a: seq<byte>, b: seq<byte>, c: seq<byte>, d: seq<byte>, e: seq<byte>, f: seq<byte>)
    ensures a + b + c + d + e + f == a + (b + c + d + e + f)
  {
  }

  method PutBytes(out: array<byte>, at: nat, bytes: seq<byte>, ghost done: seq<byte>)
    requires at + |bytes| <= out.Length && at == |done| && Holds(out[..], done)
    modifies out
    ensures Holds(out[..], done + bytes)
  {
    forall i | 0 <= i < |bytes| {
      out[at + i] := bytes[i];
    }
  }

  method PutU16(out: array<byte>, at: nat, value: u16, ghost done: seq<byte>)
    requires at + 2 <= out.Length && at == |done| && Holds(out[..], done)
    modifies out
    ensures Holds(out[..], done + Le16(value))
  {
    PutBytes(out, at, Le16(value), done);
  }

  method PutU32(out: array<byte>, at: nat, value: u32, ghost done: seq<byte>)
    requires at + 4 <= out.Length && at == |done| && Holds(out[..], done)
    modifies out
    ensures Holds(out[..], done + Le32(value))
  {
    PutBytes(out, at, Le32(value), done);
  }

  method PutStamp(out: array<byte>, at: nat, f: CommonFields, ghost done: seq<byte>)
    requires at + 10 <= out.Length && at == |done| && Holds(out[..], done)
    modifies out
    ensures Holds(out[..], done + Stamp(f))
  {
    hide Holds, Le16;
    PutU16(out, at, f.versionNeeded, done);
    PutU16(out, at + 2, f.flags, done + Le16(f.versionNeeded));
    PutU16(out, at + 4, f.compression, done + Le16(f.versionNeeded) + Le16(f.flags));
    PutU16(out, at + 6, f.modTime, done + Le16(f.versionNeeded) + Le16(f.flags) + Le16(f.compression));
    PutU16(out, at + 8, f.modDate, done + Le16(f.versionNeeded) + Le16(f.flags) + Le16(f.compression) + Le16(f.modTime));
    Joined5(done, Le16(f.versionNeeded), Le16(f.flags), Le16(f.compression), Le16(f.modTime), Le16(f.modDate));
  }

  method PutSizes(out: array<byte>, at: nat, f: CommonFields, ghost done: seq<byte>)
    requires at + 16 <= out.Length && at == |done| && Holds(out[..], done)
    modifies out
    ensures Holds(out[..], done + Sizes(f))
  {
    hide Holds, Le16, Le32;
    var name, extra := |f.name| % 0x1_0000, |f.extra| % 0x1_0000;
    PutU32(out, at, f.crc, done);
    PutU32(out, at + 4, f.compressedSize, done + Le32(f.crc));
    PutU32(out, at + 8, f.uncompressedSize, done + Le32(f.crc) + Le32(f.compressedSize));
    PutU16(out, at + 12, name, done + Le32(f.crc) + Le32(f.compressedSize) + Le32(f.uncompressedSize));
    PutU16(out, at + 14, extra, done + Le32(f.crc) + Le32(f.compressedSize) + Le32(f.uncompressedSize) + Le16(name));
    Joined5(done, Le32(f.crc), Le32(f.compressedSize), Le32(f.uncompressedSize), Le16(name), Le16(extra));
  }

  method PutPlacement(out: array<byte>, at: nat, f: CentralFields, ghost done: seq<byte>)
    requires at + 10 <= out.Length && at == |done| + 4 && Holds(out[..], done)
    modifies out
    ensures Holds(out[..], done + Placement(f))
  {
    Skipped(out[..], done, Le32(0));
    hide Holds, Le16, Le32;
    PutU16(out, at, f.internalAttributes, done + Le32(0));
    PutU32(out, at + 2, f.externalAttributes, done + Le32(0) + Le16(f.internalAttributes));
    PutU32(out, at + 6, f.localHeaderOffset, done + Le32(0) + Le16(f.internalAttributes) + Le32(f.externalAttributes));
    Joined5(done, Le32(0), Le16(f.internalAttributes), Le32(f.externalAttributes), Le32(f.localHeaderOffset), []);
  }

  method LocalHeaderBytes(f: CommonFields) returns (bytes: seq<byte>)
    ensures bytes == LocalHeader(f)
  {
    var out := new byte[LOCAL_MIN + |f.name| + |f.extra|](_ => 0);
    assert Holds(out[..], []);
    assert [] + Le32(LOCAL_SIG) == Le32(LOCAL_SIG);
    hide Stamp, Sizes, Le16, Le32;
    PutU32(out, 0, LOCAL_SIG, []);
    PutStamp(out, 4, f, Le32(LOCAL_SIG));
    PutSizes(out, 14, f, Le32(LOCAL_SIG) + Stamp(f));
    PutBytes(out, 30, f.name, Le32(LOCAL_SIG) + Stamp(f) + Sizes(f));
    PutBytes(out, 30 + |f.name|, f.extra, Le32(LOCAL_SIG) + Stamp(f) + Sizes(f) + f.name);
    return out[..];
  }

  method CentralHeaderBytes(f: CentralFields) returns (bytes: seq<byte>)
    ensures bytes == CentralHeader(f)
  {
    var name := |f.common.name|;
    var out := new byte[CD_MIN + name + |f.common.extra|](_ => 0);
    assert Holds(out[..], []);
    assert [] + Le32(CD_SIG) == Le32(CD_SIG);
    hide Stamp, Sizes, Placement, Le16, Le32;
    PutU32(out, 0, CD_SIG, []);
    ghost var done := Le32(CD_SIG);
    PutU16(out, 4, f.versionMadeBy, done);
    done := done + Le16(f.versionMadeBy);
    PutStamp(out, 6, f.common, done);
    done := done + Stamp(f.common);
    PutSizes(out, 16, f.common, done);
    done := done + Sizes(f.common);
    PutPlacement(out, 36, f, done);
    done := done + Placement(f);
    PutBytes(out, 46, f.common.name, done);
    PutBytes(out, 46 + name, f.common.extra, done + f.common.name);
    return out[..];
  }

  method EndOfCentralDirectoryBytes(total: u16, cdSize: u32, cdOffset: u32) returns (bytes: seq<byte>)
    ensures bytes == EndRecord(total, cdSize, cdOffset)
  {
    var out := new byte[22](_ => 0);
    assert Holds(out[..], []);
    assert [] + Le32(EOCD_SIG) == Le32(EOCD_SIG);
    PutU32(out, 0, EOCD_SIG, []);
    ghost var done := Le32(EOCD_SIG);
    Skipped(out[..], done, Le32(0));
    hide Le16, Le32;
    done := done + Le32(0);
    PutU16(out, 8, total, done);
    done := done + Le16(total);
    PutU16(out, 10, total, done);
    done := done + Le16(total);
    PutU32(out, 12, cdSize, done);
    done := done + Le32(cdSize);
    PutU32(out, 16, cdOffset, done);
    done := done + Le32(cdOffset);
    SkippedWord(out[..], done);
    return out[..];
  }

  lemma SkippedWord(buffer: seq<byte>, done: seq<byte>)
    requires Holds(buffer, done) && |done| + 2 <= |buffer|
    ensures Holds(buffer, done + Le16(0))
  {
    Skipped(buffer, done, Le16(0));
  }
}
