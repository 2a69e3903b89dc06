/** The fixed 32-byte preamble of an `.mdocx` container, as the command-line tool
    reads it independently of full decoding (`readHeaderInfo` in cmd/common.go). */
module Header {
  import opened Results
  import opened Bytes
  import Text

  /** Length of the preamble that is read. */
  const PreambleSize: nat := 32

  /** `'M','D','O','C','X','\r','\n',0x1A`. */
  const Magic: seq<byte> := [0x4D, 0x44, 0x4F, 0x43, 0x58, 0x0D, 0x0A, 0x1A]

  /** First byte of the reserved run, which extends to the end of the preamble. */
  const ReservedStart: nat := 20

  /** What the tool reports about a preamble. */
  datatype HeaderInfo = HeaderInfo(
    magicHex: string,
    magicValid: bool,
    version: u16,
    headerFlags: u16,
    fixedHdrSize: u32,
    metadataLength: u32,
    reservedClean: bool)

  /** Why the preamble could not be read: `io.ReadFull` on a short file reports
      `EOF` when nothing was read and `ErrUnexpectedEOF` otherwise. */
  datatype ReadError = EndOfFile | UnexpectedEndOfFile(got: nat)

  /** True when every byte of `s` is zero (the early-exit scan over the reserved bytes). */
  function AllZero(s: seq<byte>): (r: bool)
    ensures r <==> forall k :: 0 <= k < |s| ==> s[k] == 0
  {
    if |s| == 0 then true
    else if s[0] != 0 then false
    else
      var r := AllZero(s[1..]);
      assert forall k :: 1 <= k < |s| ==> s[k] == s[1..][k - 1];
      r
  }

  /** The byte-level decode of a full preamble. */
  function DecodeHeader(buf: seq<byte>): (h: HeaderInfo)
    requires |buf| == PreambleSize
    ensures h.magicValid <==> buf[..8] == Magic
    ensures h.magicHex == HexEncode(buf[..8])
    ensures h.reservedClean <==> forall k :: ReservedStart <= k < PreambleSize ==> buf[k] == 0
    // The fields are read little-endian whatever the magic and the reserved bytes.
    ensures PutLittleEndian16(h.version) == buf[8..10] && PutLittleEndian16(h.headerFlags) == buf[10..12]
    ensures PutLittleEndian32(h.fixedHdrSize) == buf[12..16] && PutLittleEndian32(h.metadataLength) == buf[16..20]
  {
    LittleEndian16Unique(buf[8], buf[9]);
    LittleEndian16Unique(buf[10], buf[11]);
    LittleEndian32Unique(buf[12], buf[13], buf[14], buf[15]);
    LittleEndian32Unique(buf[16], buf[17], buf[18], buf[19]);
    HeaderInfo(
      magicHex := HexEncode(buf[0..8]),
      magicValid := buf[0..8] == Magic,
      version := LittleEndian16(buf[8], buf[9]),
      headerFlags := LittleEndian16(buf[10], buf[11]),
      fixedHdrSize := LittleEndian32(buf[12], buf[13], buf[14], buf[15]),
      metadataLength := LittleEndian32(buf[16], buf[17], buf[18], buf[19]),
      reservedClean := AllZero(buf[20..32]))
  }

  /** `readHeaderInfo` once the file is open: `file` is its whole content. Only the
      first 32 bytes are looked at; a shorter file is a read error. */
  function ReadHeaderInfo(file: seq<byte>): (r: Result<HeaderInfo, ReadError>)
    ensures |file| >= PreambleSize <==> r.Success?
    ensures r.Success? ==> r.value == DecodeHeader(file[..PreambleSize])
    ensures |file| == 0 ==> r == Failure(EndOfFile)
  {
    if |file| == 0 then Failure(EndOfFile)
    else if |file| < PreambleSize then Failure(UnexpectedEndOfFile(|file|))
    else Success(DecodeHeader(file[..PreambleSize]))
  }

  /** A well-formed preamble carrying the given fields: magic, little-endian fields
      and zeroed reserved bytes. This is the layout the decoder expects. */
  function EncodeHeader(version: u16, flags: u16, fixedSize: u32, metadataLength: u32): (buf: seq<byte>)
    ensures |buf| == PreambleSize
    ensures buf[..8] == Magic
    ensures buf[8..10] == PutLittleEndian16(version) && buf[10..12] == PutLittleEndian16(flags)
    ensures buf[12..16] == PutLittleEndian32(fixedSize) && buf[16..20] == PutLittleEndian32(metadataLength)
    ensures buf[ReservedStart..] == seq(12, _ => 0 as byte)
  {
    Magic + PutLittleEndian16(version) + PutLittleEndian16(flags)
      + PutLittleEndian32(fixedSize) + PutLittleEndian32(metadataLength)
      + seq(12, _ => 0 as byte)
  }

  /** Decoding an encoded preamble gives back every field, a valid magic and clean
      reserved bytes. */
  lemma DecodeEncode(version: u16, flags: u16, fixedSize: u32, metadataLength: u32)
    ensures var h := DecodeHeader(EncodeHeader(version, flags, fixedSize, metadataLength));
      && h.magicValid && h.reservedClean
      && h.magicHex == HexEncode(Magic)
      && h.version == version && h.headerFlags == flags
      && h.fixedHdrSize == fixedSize && h.metadataLength == metadataLength
  {
    var buf := EncodeHeader(version, flags, fixedSize, metadataLength);
    assert buf[..8] == Magic;
    var v := PutLittleEndian16(version);
    var f := PutLittleEndian16(flags);
    var s := PutLittleEndian32(fixedSize);
    var m := PutLittleEndian32(metadataLength);
    assert buf[8] == v[0] && buf[9] == v[1];
    assert buf[10] == f[0] && buf[11] == f[1];
    assert buf[12] == s[0] && buf[13] == s[1] && buf[14] == s[2] && buf[15] == s[3];
    assert buf[16] == m[0] && buf[17] == m[1] && buf[18] == m[2] && buf[19] == m[3];
    LittleEndian16RoundTrip(version);
    LittleEndian16RoundTrip(flags);
    LittleEndian32RoundTrip(fixedSize);
    LittleEndian32RoundTrip(metadataLength);
    assert forall k :: ReservedStart <= k < PreambleSize ==> buf[k] == 0;
  }

  /** Conversely, a preamble with a valid magic and clean reserved bytes is exactly
      the encoding of the fields decoded from it. */
  lemma EncodeDecode(buf: seq<byte>)
    requires |buf| == PreambleSize
    requires DecodeHeader(buf).magicValid && DecodeHeader(buf).reservedClean
    ensures var h := DecodeHeader(buf);
      EncodeHeader(h.version, h.headerFlags, h.fixedHdrSize, h.metadataLength) == buf
  {
    EncodeFields(buf);
  }

  /** A preamble with the magic and zeroed reserved bytes is the encoding of its own
      little-endian fields. */
  lemma EncodeFields(buf: seq<byte>)
    requires |buf| == PreambleSize && buf[..8] == Magic
    requires forall k :: ReservedStart <= k < PreambleSize ==> buf[k] == 0
    ensures EncodeHeader(LittleEndian16(buf[8], buf[9]), LittleEndian16(buf[10], buf[11]),
      LittleEndian32(buf[12], buf[13], buf[14], buf[15]),
      LittleEndian32(buf[16], buf[17], buf[18], buf[19])) == buf
  {
    LittleEndian16Unique(buf[8], buf[9]);
    LittleEndian16Unique(buf[10], buf[11]);
    LittleEndian32Unique(buf[12], buf[13], buf[14], buf[15]);
    LittleEndian32Unique(buf[16], buf[17], buf[18], buf[19]);
    assert buf[ReservedStart..] == seq(12, _ => 0 as byte);
    var e := EncodeHeader(LittleEndian16(buf[8], buf[9]), LittleEndian16(buf[10], buf[11]),
      LittleEndian32(buf[12], buf[13], buf[14], buf[15]),
      LittleEndian32(buf[16], buf[17], buf[18], buf[19]));
    Pieces(e);
    Pieces(buf);
  }

  /** A preamble is the concatenation of its fields. */
  lemma Pieces(buf: seq<byte>)
    requires |buf| == PreambleSize
    ensures buf == buf[..8] + [buf[8], buf[9]] + [buf[10], buf[11]]
      + [buf[12], buf[13], buf[14], buf[15]] + [buf[16], buf[17], buf[18], buf[19]] + buf[ReservedStart..]
  {
  }

  /** The reserved-byte check is independent of every other field: dirtying one
      reserved byte clears `reservedClean` and leaves the rest of the report as it was. */
  lemma DirtyReservedByte(buf: seq<byte>, k: nat, b: byte)
    requires |buf| == PreambleSize
    requires ReservedStart <= k < PreambleSize && b != 0
    ensures var h := DecodeHeader(buf);
      var h' := DecodeHeader(buf[k := b]);
      h' == h.(reservedClean := false)
  {
    var buf' := buf[k := b];
    assert buf'[..8] == buf[..8];
    assert buf'[8..20] == buf[8..20];
    assert buf'[k] != 0;
  }

  /** A valid preamble with one reserved byte dirtied (the tool's own tests set byte
      25 to 0xFF) keeps its valid magic and its fields but is no longer clean. */
  lemma DirtyEncodedHeader(version: u16, flags: u16, fixedSize: u32, metadataLength: u32, k: nat, b: byte)
    requires ReservedStart <= k < PreambleSize && b != 0
    ensures var h := DecodeHeader(EncodeHeader(version, flags, fixedSize, metadataLength)[k := b]);
      && h.magicValid && !h.reservedClean
      && h.version == version && h.headerFlags == flags
      && h.fixedHdrSize == fixedSize && h.metadataLength == metadataLength
  {
    var good := EncodeHeader(version, flags, fixedSize, metadataLength);
    DecodeEncode(version, flags, fixedSize, metadataLength);
    DirtyReservedByte(good, k, b);
  }
}
