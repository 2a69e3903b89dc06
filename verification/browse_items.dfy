/** What the browser lists and shows about the document: the list entries with
    their titles and descriptions (`markdownItem` and `mediaItem` in
    cmd/browse_tui.go), and the text of the header tab. */
module BrowseItems {
  import opened Results
  import opened Bytes
  import Text
  import opened Header
  import opened Bundle

  /** `markdownItem`: a markdown file as listed. */
  datatype MarkdownEntry = MarkdownEntry(path: string, size: nat)

  /** `mediaItem`: a media item as listed. */
  datatype MediaEntry = MediaEntry(id: string, path: string, mimeType: string, size: nat, data: seq<byte>)

  function MarkdownEntryOf(f: MarkdownFile): MarkdownEntry {
    MarkdownEntry(f.path, |f.content|)
  }

  function MediaEntryOf(m: MediaItem): MediaEntry {
    MediaEntry(m.id, m.path, m.mimeType, |m.data|, m.data)
  }

  /** The unit appended to a size. */
  const BytesSuffix: string := " bytes"

  function MarkdownTitle(e: MarkdownEntry): string {
    e.path
  }

  /** `"<size> bytes"`. */
  function MarkdownDescription(e: MarkdownEntry): string {
    Text.NatToString(e.size) + BytesSuffix
  }

  function MarkdownFilterValue(e: MarkdownEntry): string {
    e.path
  }

  /** The container path when there is one, the ID otherwise. */
  function MediaTitle(e: MediaEntry): string {
    if e.path != "" then e.path else e.id
  }

  /** `"<MIME type> (<size> bytes)"`. */
  function MediaDescription(e: MediaEntry): string {
    e.mimeType + " (" + Text.NatToString(e.size) + BytesSuffix + ")"
  }

  function MediaFilterValue(e: MediaEntry): string {
    e.id
  }

  /** A markdown entry's description ends in " bytes" after a numeral that reads
      back as the file's size. */
  lemma MarkdownDescriptionReadsBack(e: MarkdownEntry)
    ensures var d := MarkdownDescription(e);
      && |d| > |BytesSuffix|
      && d[|d| - |BytesSuffix|..] == BytesSuffix
      && Text.ParseNat(d[..|d| - |BytesSuffix|]) == Some(e.size)
  {
    var n := Text.NatToString(e.size);
    var d := MarkdownDescription(e);
    assert d[..|n|] == n && d[|n|..] == BytesSuffix;
    Text.ParseNatToString(e.size);
  }

  /** A media entry's description starts with its MIME type, then the size in
      parentheses as a numeral that reads back as the data's length. */
  lemma MediaDescriptionReadsBack(e: MediaEntry)
    ensures var d := MediaDescription(e);
      var m := |e.mimeType|;
      && |d| > m + 2 + |BytesSuffix| + 1
      && d[..m] == e.mimeType
      && d[m..m + 2] == " ("
      && d[|d| - |BytesSuffix| - 1..] == BytesSuffix + ")"
      && Text.ParseNat(d[m + 2..|d| - |BytesSuffix| - 1]) == Some(e.size)
  {
    var n := Text.NatToString(e.size);
    var d := MediaDescription(e);
    var m := |e.mimeType|;
    assert d == e.mimeType + " (" + n + (BytesSuffix + ")");
    assert d[..m] == e.mimeType;
    assert d[m..m + 2] == " (";
    assert d[m + 2..|d| - |BytesSuffix| - 1] == n;
    assert d[|d| - |BytesSuffix| - 1..] == BytesSuffix + ")";
    Text.ParseNatToString(e.size);
  }

  /** An item that passes the container checks (a non-blank ID) never shows an
      empty title. */
  lemma MediaTitleNonEmpty(m: MediaItem)
    requires Text.TrimSpace(m.id) != ""
    ensures MediaTitle(MediaEntryOf(m)) != ""
  {
  }

  /** The markdown entry pinned down by the tool's own tests. */
  lemma MarkdownExample()
    ensures var e := MarkdownEntry("docs/readme.md", 1024);
      && MarkdownTitle(e) == "docs/readme.md" && MarkdownDescription(e) == "1024 bytes"
      && MarkdownFilterValue(e) == "docs/readme.md"
  {
    assert Text.NatToString(1024) == "1024";
  }

  /** The media entries pinned down by the tool's own tests: a title falls back to
      the ID when there is no path. */
  lemma MediaExamples()
    ensures var e := MediaEntry("img_png", "assets/img.png", "image/png", 4096, []);
      && MediaTitle(e) == "assets/img.png" && MediaDescription(e) == "image/png (4096 bytes)"
      && MediaFilterValue(e) == "img_png"
    ensures MediaTitle(MediaEntry("my_media", "", "application/octet-stream", 256, [])) == "my_media"
  {
    assert Text.NatToString(4096) == "4096";
  }

  /** Shown on the metadata tab when the document has no metadata. */
  const NoMetadataText: string := "(no metadata)"

  /** Shown on the header tab when the preamble could not be read. */
  const NoHeaderText: string := "(header unavailable)"

  /** The header tab: one `Name: value` line per field of the preamble report, the
      flags as `0x` and four lower-case hexadecimal digits. */
  function HeaderView(h: HeaderInfo): string {
    MagicLine(h) + FieldLines(h)
  }

  function MagicLine(h: HeaderInfo): string {
    "Magic: " + h.magicHex + "\n"
  }

  function FieldLines(h: HeaderInfo): string {
    "Magic Valid: " + Text.BoolToString(h.magicValid) + "\n"
    + "Version: " + Text.NatToString(h.version) + "\n"
    + "Header Flags: 0x" + Text.HexPadded(h.headerFlags, 4) + "\n"
    + "Fixed Header Size: " + Text.NatToString(h.fixedHdrSize) + "\n"
    + "Metadata Length: " + Text.NatToString(h.metadataLength) + "\n"
    + "Reserved Clean: " + Text.BoolToString(h.reservedClean) + "\n"
  }

  /** The header tab's text starts with the magic line, so a report is never
      mistaken for the placeholder. */
  lemma HeaderViewNotPlaceholder(h: HeaderInfo)
    ensures Text.HasPrefix(HeaderView(h), "Magic: " + h.magicHex + "\n")
    ensures HeaderView(h) != NoHeaderText
  {
    var first := MagicLine(h);
    assert HeaderView(h)[..|first|] == first;
    assert HeaderView(h)[0] == first[0] == 'M';
    assert NoHeaderText[0] == '(';
  }
}
