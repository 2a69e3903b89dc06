# mdocx-cli core, modelled in Dafny

`mdocx-cli` is a command-line tool for `.mdocx` containers: documents that bundle
markdown files, media assets and a metadata object behind a fixed 32-byte
preamble. This project models the logic of the tool's commands that does not
touch the file system or the terminal:

- the preamble report (`readHeaderInfo`): the magic check, the little-endian
  fields and the reserved-byte check (module `Header`, with `Bytes`);
- the compression names accepted on the command line (`parseCompression`,
  module `Compression`);
- container paths and media IDs (`sanitizeContainerPath`, `makeIDFromPath`,
  `validateContainerPaths`, module `ContainerPaths`);
- the report of the `validate` command (`buildValidationResult`, module
  `Validate`);
- the summary of the `inspect` command (`buildInspectSummary`, module
  `Inspect`, with the byte-order string sort in `Sorting`);
- the interactive browser: the list entries and the header tab (module
  `BrowseItems`), Sixel detection (module `Capability`), image fitting (module
  `ImageScale`) and the browser's state machine (module `Browse`).

The decoded document (`mdocx.Document`) is the datatype `Bundle.Document`;
`Results` holds `Option`, `Result` and `Outcome`; `Text` holds the ASCII string
functions the tool relies on (trimming, lower-casing, splitting and joining on
a separator, decimal and hexadecimal numerals).

The libraries the browser drives are parameters: the markdown renderer, the
image decoder, the Sixel encoder, JSON formatting and the list and viewport
widgets' own key handling are function fields of `Browse.Env`, and the three
environment variables read by `supportsSixel` are arguments of
`Capability.SupportsSixel`. Reading files, the clock and the terminal are not
modelled.

## Model

| member | source | states |
|---|---|---|
| Header.DecodeHeader | cmd/common.go:41-63 | the magic is valid exactly when bytes 0-7 are `MDOCX\r\n\x1A`, the magic is reported as the hex of those bytes, the reserved bytes are clean exactly when bytes 20-31 are all zero, and, whatever the magic and the reserved bytes, version and flags are bytes 8-9 and 10-11 and the fixed size and metadata length bytes 12-15 and 16-19, each read little-endian |
| Header.ReadHeaderInfo | cmd/common.go:36-39 | a file yields a report exactly when it has at least 32 bytes, and the report is the decode of the first 32; an empty file fails with end-of-file |
| Header.DecodeEncode | cmd/common.go:55-63 | decoding a preamble built from a version, flags, fixed size and metadata length gives those four values back, a valid magic and clean reserved bytes |
| Header.EncodeDecode | cmd/common.go:41-63 | a preamble with a valid magic and clean reserved bytes is exactly the encoding of the fields it decodes to |
| Header.EncodeFields | cmd/common.go:58-61 | a preamble with the magic and zero reserved bytes equals the encoding of its little-endian fields read back |
| Header.DirtyReservedByte | cmd/common.go:46-53 | a non-zero byte anywhere in 20-31 makes the reserved check fail and changes no other field of the report |
| Header.DirtyEncodedHeader | cmd/common.go:46-53 | a valid preamble with one reserved byte set non-zero is reported with a valid magic, unchanged fields and unclean reserved bytes |
| Bytes.LittleEndian16RoundTrip | cmd/common.go:58-59 | two bytes combined as a little-endian 16-bit value split back into the same two bytes |
| Bytes.LittleEndian32RoundTrip | cmd/common.go:60-61 | four bytes combined as a little-endian 32-bit value split back into the same four bytes |
| Compression.ParseCompression | cmd/common.go:66-81 | a name is accepted exactly when, trimmed and lower-cased, it is an alias of some compression; the result is that compression; otherwise the error carries the original text |
| Compression.ParseCompressionTable | cmd/common.go:67-78 | a name parses to a compression exactly when its normal form is one of that compression's aliases |
| Compression.AliasesDisjoint | cmd/common.go:68-78 | no spelling is an alias of two compressions |
| Compression.ParseIgnoresCaseAndSpace | cmd/common.go:67 | normalising a name first changes neither acceptance nor the result |
| Compression.ParseCanonicalName | cmd/common.go:68-78 | every compression's canonical name parses back to that compression |
| Compression.ParseEmptyIsDefault | cmd/common.go:68-69 | the empty name selects zstd |
| ContainerPaths.SanitizeContainerPath | cmd/common.go:221-255 | a path is accepted exactly when, trimmed, it is non-empty, has no backslash, no leading slash, no colon and no `.` or `..` segment |
| ContainerPaths.SanitizeErrors | cmd/common.go:222-250 | a rejection names the first check that fails in source order: empty, backslash, not relative (leading slash or colon), traversal; the post-clean errors never occur |
| ContainerPaths.SanitizeClean | cmd/common.go:245-254 | an accepted path comes back clean, and its segments are exactly the non-empty segments of the trimmed input |
| ContainerPaths.SanitizeCleanPath | cmd/common.go:221-255 | a clean path without white space at its ends is its own sanitisation |
| ContainerPaths.SanitizeIdempotent | cmd/common.go:221-255 | sanitising an accepted path again gives the same path, unless cleaning left white space at an end |
| ContainerPaths.CollapsesDoubleSlash | cmd/common.go:245-254 | `a//b` sanitises to `a/b` for plain segments `a` and `b` |
| ContainerPaths.RejectsParentPrefix | cmd/common.go:238-244 | every path starting with `../` is rejected |
| ContainerPaths.RejectsAbsolute | cmd/common.go:230-232 | every path starting with `/` is rejected |
| ContainerPaths.MakeIDFromPath | cmd/common.go:290-310 | the ID is non-empty, made of lower-case letters, digits and `_`, neither starts nor ends with `_`, and is `media` when the path has no letter or digit; otherwise it is the lower-cased path with every other character turned into `_`, less only the runs of `_` at its two ends |
| ContainerPaths.MakeIDOfMapped | cmd/common.go:290-310 | when the lower-cased path with its other characters turned into `_` neither starts nor ends with `_`, that is the ID |
| ContainerPaths.MakeIDExamples | cmd/common_new_test.go:375-395 | `img.png`, `assets/logo.png` and `UPPER.JPG` give `img_png`, `assets_logo_png` and `upper_jpg` |
| ContainerPaths.MakeIDMoreExamples | cmd/common_new_test.go:375-395 | `a-b.png` and `a_b.png` both give `a_b_png`, and `123.png` gives `123_png` |
| ContainerPaths.MakeIDDefaultExamples | cmd/common_new_test.go:375-395 | `---` and the empty path give `media` |
| ContainerPaths.MediaIDFixed | cmd/common.go:290-310 | an ID of that shape is its own ID |
| ContainerPaths.MakeIDIdempotent | cmd/common.go:290-310 | deriving an ID from an ID changes nothing |
| ContainerPaths.MakeIDSeparatorsCollide | cmd/common.go:296-303 | two paths differing in one non-alphanumeric character get the same ID |
| ContainerPaths.CheckMediaItem | cmd/common.go:320-329 | an item passes exactly when its path (if set) sanitises and its trimmed ID is non-empty; a path error is reported before an ID error |
| ContainerPaths.CheckMarkdownPaths | cmd/common.go:314-318 | passes exactly when every markdown path sanitises; otherwise reports the first failing file with its index and error |
| ContainerPaths.CheckMediaItems | cmd/common.go:319-330 | passes exactly when every media item passes; otherwise reports the first failing item |
| ContainerPaths.ValidateContainerPaths | cmd/common.go:313-331 | passes exactly when all markdown paths and all media items pass; a failure is the first markdown failure, or, when all markdown paths pass, the first media failure |
| Validate.BuildValidationResult | cmd/validate.go:78-143 | the counts and byte totals of the document, the warnings in the order header, bundle versions, duplicate paths, duplicate IDs, and valid exactly when there is no warning |
| Validate.SumMarkdownBytes | cmd/validate.go:82-84 | the sum of the markdown contents' lengths |
| Validate.SumMediaBytes | cmd/validate.go:85-87 | the sum of the media data lengths |
| Validate.CheckHeader | cmd/validate.go:89-110 | a read error gives that one warning; a report gives one warning per failed check (magic, version 1, fixed size 32, reserved bytes) in that order |
| Validate.CheckVersions | cmd/validate.go:112-120 | one warning per bundle whose version is not 1, markdown first |
| Validate.ReportRepeats | cmd/validate.go:122-140 | scanning with a set of seen values appends one warning for each occurrence of a value after its first |
| Validate.RepeatsCount | cmd/validate.go:122-130 | a value occurring n times draws n - 1 warnings |
| Validate.RepeatsWithin | cmd/validate.go:122-130 | every repeated value occurs in the scanned list |
| Validate.RepeatsEmptyIffDistinct | cmd/validate.go:122-130 | there is no repeat warning exactly when the values are distinct |
| Validate.ValidIff | cmd/validate.go:78-143 | a document is valid exactly when there is no header error, any header passes all four checks, both bundles are at version 1, and paths and IDs are distinct |
| Validate.DuplicatePathCount | cmd/validate.go:122-130 | whatever the header or header error, the warnings about a markdown path number one less than its occurrences |
| Validate.DuplicateIDCount | cmd/validate.go:132-140 | whatever the header or header error, the warnings about a media ID number one less than its occurrences |
| Validate.HeaderErrorAlone | cmd/validate.go:89-92 | a header read error is the first warning and no other header warning follows |
| Validate.EncodedHeaderAccepted | cmd/validate.go:93-109 | a well-formed version-1 preamble of fixed size 32 draws no header warning |
| Validate.DirtyHeaderWarning | cmd/validate.go:105-108 | the same preamble with one reserved byte dirtied draws exactly the reserved-bytes warning |
| Inspect.BuildInspectSummary | cmd/inspect.go:66-86 | the header is passed through; the metadata keys are sorted, distinct and exactly the map's keys; paths, IDs and set media paths are sorted permutations of the document's |
| Inspect.CollectKeys | cmd/inspect.go:69-71 | ranging over the map lists every key once, in some order |
| Inspect.CollectMedia | cmd/inspect.go:75-80 | one pass lists every media ID and every media path that is set, in document order |
| Inspect.PresentPathsCount | cmd/inspect.go:77-79 | the empty path is never listed and every other path is listed as often as it occurs |
| Inspect.KeysOrderIndependent | cmd/inspect.go:69-81 | whatever order the map is ranged in, the sorted key list is the same |
| Inspect.SummaryOrderIndependent | cmd/inspect.go:72-85 | reordering the markdown files or the media items leaves every sorted list unchanged |
| Sorting.Sort | cmd/inspect.go:81-84 | the result is a sorted permutation of the input in byte order |
| Sorting.SortPermutation | cmd/inspect.go:81-84 | two permutations of each other sort to the same list |
| Sorting.SortedDistinct | cmd/inspect.go:81 | sorting distinct keys gives a strictly increasing list |
| Capability.SupportsSixel | cmd/browse_tui.go:453-480 | Sixel is supported exactly when WT_SESSION is set, the trimmed lower-cased TERM_PROGRAM contains iterm, wezterm, mintty or contour, or TERM contains sixel, xterm, mlterm or foot |
| Capability.SixelIgnoresCaseAndSpace | cmd/browse_tui.go:455-456 | the answer does not depend on case or surrounding white space |
| Capability.NoEnvironmentNoSixel | cmd/browse_tui.go:453-480 | with no variable set there is no Sixel support |
| Capability.BlankTermMatchesNothing | cmd/browse_tui.go:470-472 | the explicit empty-TERM test returns what the word search would return |
| ImageScale.ScaleImage | cmd/browse_tui.go:483-516 | an image with an empty side or that fits is returned unchanged; otherwise it is resampled to sides of at least one pixel that fit the box; when the height ratio is the smaller the height is the box's and the width is width × maxHeight / height rounded down (but at least 1), and otherwise the width is the box's and the height is rounded down the same way |
| ImageScale.ScalePreservesAspect | cmd/browse_tui.go:495-511 | for a positive image and box, the cross products of the scaled and original sides differ by less than the original side that was fitted (none when the image is kept): the rounded side is less than one pixel from the exact proportional length |
| ImageScale.PixelBudget | cmd/browse_tui.go:436-443 | the box is 8 pixels per column and 16 per row less two rows, but at least 80 by 100 |
| ImageScale.RenderSixelImage | cmd/browse_tui.go:429-451 | a failed decode or a failed encoding gives the empty string; after a successful decode the drawing is exactly the encoding of the image fitted to the pixel budget |
| ImageScale.SixelFitsTerminal | cmd/browse_tui.go:436-444 | on a terminal of at least 10 by 9 cells a scaled image fits the window less two rows |
| ImageScale.ScaleExamples | cmd/browse_tui_test.go:11-58 | the sizes in the tool's scaling tests: 100x80 kept, 400x200 to 200x100, 200x400 to 100x200, 0x0 kept, 10000x5000 to 100x50 |
| BrowseItems.MarkdownDescriptionReadsBack | cmd/browse_tui.go:64 | a markdown entry's description is a numeral that reads back as the file size, then ` bytes` |
| BrowseItems.MediaDescriptionReadsBack | cmd/browse_tui.go:81 | a media entry's description is the MIME type, then the size in parentheses as a numeral that reads back |
| BrowseItems.MarkdownExample | cmd/browse_tui_test.go:238-250 | `docs/readme.md` of 1024 bytes is listed as `docs/readme.md` with description `1024 bytes` |
| BrowseItems.MediaExamples | cmd/browse_tui_test.go:252-282 | a PNG with a path is titled by its path and described as `image/png (4096 bytes)`; without a path the title is the ID |
| BrowseItems.MediaTitleNonEmpty | cmd/browse_tui.go:75-80 | an item with a non-blank ID never has an empty title |
| BrowseItems.HeaderViewNotPlaceholder | cmd/browse_tui.go:110-122 | the header tab of a report starts with its magic line and is never the placeholder |
| Browse.NewBrowseModel | cmd/browse_tui.go:84-151 | the browser starts exactly when an 80-column renderer can be built; it keeps the theme and the image support it is given, has no window size yet, and opens on the first tab at the first rows, with the metadata or `(no metadata)`, the report or `(header unavailable)`, and the markdown pane shown from the top |
| Browse.Update | cmd/browse_tui.go:157-284 | no message changes the document or the fixed views; the image-view invariant is kept (the view is open exactly when there is a drawing, and only on the media tab with an image selected); while an image is shown, a key or click closes it and anything else is ignored; `q` and `ctrl+c` quit when no image is shown; no message but `v` opens the image view |
| Browse.TabCycle | cmd/browse_tui.go:192-199 | the next and previous tab are inverse and four steps go round |
| Browse.NextTabKeys | cmd/browse_tui.go:192-195 | `tab` and `right` select the next tab and show its content |
| Browse.PrevTabKeys | cmd/browse_tui.go:196-199 | `shift+tab` and `left` select the previous tab and show its content |
| Browse.TabRoundTrip | cmd/browse_tui.go:192-199 | `tab` then `shift+tab` returns to the same tab showing its content; four `tab` presses return to the start |
| Browse.ViewKeyOpensImage | cmd/browse_tui.go:178-191 | `v` opens the image view exactly on the media tab, with image support, an image MIME type and a non-empty drawing; otherwise nothing changes |
| Browse.ViewImage | cmd/browse_tui.go:178-191 | the `v` key never changes the document and keeps the image-view invariant |
| Browse.ImageViewIsModal | cmd/browse_tui.go:158-171 | while an image is shown a key or click clears only the image view, and other messages change nothing |
| Browse.HitTabRanges | cmd/browse_tui.go:216-230 | a click hits tab i exactly within its columns, each tab being its name plus two columns wide |
| Browse.TabBarWidth | cmd/browse_tui.go:216-230 | the tab bar is 35 columns wide and no click outside it hits a tab |
| Browse.ClickOnTab | cmd/browse_tui.go:216-228 | a left click on the first row over the active tab changes nothing; over another tab it selects that tab |
| Browse.ClickPastTabs | cmd/browse_tui.go:216-252 | a left click past the tabs or below the first row goes to the active tab's widget |
| Browse.WheelScrolls | cmd/browse_tui.go:206-214 | the wheel scrolls the viewport three lines per notch and changes nothing else |
| Browse.Forward | cmd/browse_tui.go:232-283 | on a list tab the list widget handles the message and, when the selection moved, the pane shows the newly selected entry from the top, otherwise the viewport is untouched; on the other tabs the viewport widget handles it; the document, the tab and the image view never change |
| Browse.HandleKey | cmd/browse_tui.go:174-204 | keys never change the document and keep the image-view invariant, and no key but `v` touches the image view |
| Browse.HandleMouse | cmd/browse_tui.go:205-252 | mouse events never change the document or the image view |
| Browse.Reflow | cmd/browse_tui.go:315-331 | nothing happens without a positive size; otherwise the list column is the larger of 24 and a third of the width, the content column the larger of 20 and the rest of the width less a gap (exactly the rest from 72 columns on), both lists and the viewport share one height, the larger of 5 and the height less 3, and on the list tabs the viewport takes the content width; the selections and the viewport's content and position are kept, and the renderer is rebuilt at the content width when that succeeds |
| Browse.ReflowIdempotent | cmd/browse_tui.go:315-331 | a second layout for the same size changes nothing |
| Browse.ApplyViewportSize | cmd/browse_tui.go:348-358 | without a size it does nothing; the metadata and header tabs get the larger of 20 and the width less 2 by the larger of 5 and the height less 3; the list tabs get the content width |
| Browse.RefreshContent | cmd/browse_tui.go:333-346 | the viewport shows the active tab's content from the top; the document, the tab, the lists, the window size and the image view are unchanged |
| Browse.ResizeLaysOut | cmd/browse_tui.go:254-259 | a resize records the size, lays out the panes and shows the active tab from the top |
| Browse.FirstContentIsFirst | cmd/browse_tui.go:365-371 | the content looked up for a path is that of the first file with that path |
| Browse.MarkdownPane | cmd/browse_tui.go:360-383 | the markdown tab shows the selected path's first file rendered, raw when rendering fails, and `(empty markdown)` when empty |
| Browse.MediaPane | cmd/browse_tui.go:385-416 | the media tab starts with the ID line, ends with the `v` hint for an image when images can be shown, a non-image ends with its size line, and the pane is empty with nothing selected |

## Left out

- File and terminal I/O: opening and reading files, `readMetadataJSON`, the
  `collect*` file walks, `containerPathFromFile`, `safeJoinOutput`, unpacking,
  the commands' `RunE` bodies, `init` and `version`.
- SHA-256 and MIME detection by extension, which are library calls.
- `humanSize` and every other use of floating point except scaling, which is
  modelled exactly (see `ImageScale.ScaleImage` below).
- `path.Clean` in general: it is modelled only on paths that passed the
  sanitiser's earlier checks, where it only drops empty segments.
- Unicode: trimming, lower-casing and the ID alphabet are modelled on ASCII
  characters; Go's `strings.TrimSpace` and `strings.ToLower` also act on other
  code points.
- Browse.AsText: markdown bytes are shown one character per byte, so non-ASCII
  UTF-8 text in the raw fallback is not decoded as Go's `string(content)` keeps it.
- The text of warnings and errors: the model keeps each warning's kind and the
  values it mentions, not the sentence.
- The JSON output of `validate` and `inspect` (field names, `omitempty`, nil versus
  empty lists) and the `Error` field, which only the command fills.
- The markdown renderer, image decoding, Sixel encoding, JSON formatting of the
  metadata and the list and viewport widgets' internal behaviour: they are
  parameters of `Browse.Env`. A renderer is represented by the width it was
  built for.
- `View` and the styling of the tabs.
- ImageScale.ScaleImage: the side sizes are computed in exact arithmetic; Go
  computes them through a `float64` scale factor, so where the factor is not
  exact a side can come out one pixel smaller than in the model.
- ImageScale.ScaleImage: pixels and the bilinear filter are not modelled, only
  the dimensions of the result.
