/** The bundle validator behind the `validate` command (`buildValidationResult` in
    cmd/validate.go): counts, byte totals and a list of warnings about the header,
    the bundle versions and duplicate paths or IDs. The document is valid exactly
    when no warning was raised. */
module Validate {
  import opened Results
  import opened Bytes
  import opened Header
  import opened Bundle

  /** One warning. The tool prints each as a sentence; the model keeps the kind and
      the values the sentence mentions. */
  datatype Warning =
    | HeaderReadError(message: string)
    | InvalidMagic
    | BadHeaderVersion(version: u16)
    | BadFixedHeaderSize(size: u32)
    | DirtyReservedBytes
    | BadMarkdownBundleVersion(version: u16)
    | BadMediaBundleVersion(version: u16)
    | DuplicateMarkdownPath(path: string)
    | DuplicateMediaID(id: string)

  /** `validationResult`, less the `Error` field that only the command itself fills. */
  datatype ValidationResult = ValidationResult(
    valid: bool,
    markdownFileCount: nat,
    mediaItemCount: nat,
    totalMarkdownBytes: nat,
    totalMediaBytes: nat,
    warnings: seq<Warning>)

  /** The version the tool expects for the header and for both bundles. */
  const ExpectedVersion: nat := 1

  /** Total content length of the markdown files. */
  function MarkdownBytes(files: seq<MarkdownFile>): nat {
    if |files| == 0 then 0
    else MarkdownBytes(files[..|files| - 1]) + |files[|files| - 1].content|
  }

  /** Total data length of the media items. */
  function MediaBytes(items: seq<MediaItem>): nat {
    if |items| == 0 then 0
    else MediaBytes(items[..|items| - 1]) + |items[|items| - 1].data|
  }

  /** The header warnings. A read error is reported alone and suppresses the field
      checks; with no header and no error there is nothing to say. */
  function HeaderWarnings(header: Option<HeaderInfo>, headerErr: Option<string>): seq<Warning> {
    if headerErr.Some? then [HeaderReadError(headerErr.value)]
    else if header.None? then []
    else
      var h := header.value;
      (if h.magicValid then [] else [InvalidMagic])
      + (if h.version == ExpectedVersion then [] else [BadHeaderVersion(h.version)])
      + (if h.fixedHdrSize == PreambleSize then [] else [BadFixedHeaderSize(h.fixedHdrSize)])
      + (if h.reservedClean then [] else [DirtyReservedBytes])
  }

  /** The bundle-version warnings, markdown first. */
  function VersionWarnings(doc: Document): seq<Warning> {
    (if doc.markdownBundleVersion == ExpectedVersion then []
     else [BadMarkdownBundleVersion(doc.markdownBundleVersion)])
    + (if doc.mediaBundleVersion == ExpectedVersion then []
       else [BadMediaBundleVersion(doc.mediaBundleVersion)])
  }

  /** Every occurrence of a value after its first, in order of occurrence. */
  function Repeats(s: seq<string>): seq<string> {
    if |s| == 0 then []
    else
      var init := s[..|s| - 1];
      Repeats(init) + (if s[|s| - 1] in init then [s[|s| - 1]] else [])
  }

  /** The two kinds of value checked for repeats. */
  datatype Kind = MarkdownPath | MediaID

  function Tag(kind: Kind, v: string): Warning {
    match kind
    case MarkdownPath => DuplicateMarkdownPath(v)
    case MediaID => DuplicateMediaID(v)
  }

  /** One warning per repeated value. */
  function Tagged(reps: seq<string>, kind: Kind): (r: seq<Warning>)
    ensures |r| == |reps|
  {
    seq(|reps|, k requires 0 <= k < |reps| => Tag(kind, reps[k]))
  }

  /** All warnings, in the order the tool raises them: header, bundle versions,
      duplicate markdown paths, duplicate media IDs. */
  function AllWarnings(doc: Document, header: Option<HeaderInfo>, headerErr: Option<string>): seq<Warning> {
    HeaderWarnings(header, headerErr) + VersionWarnings(doc)
    + Tagged(Repeats(MarkdownPaths(doc.markdownFiles)), MarkdownPath)
    + Tagged(Repeats(MediaIDs(doc.mediaItems)), MediaID)
  }

  /** `buildValidationResult`. `valid` starts true and is cleared together with every
      warning appended; duplicates are found with a set of the values seen so far. */
  method BuildValidationResult(doc: Document, header: Option<HeaderInfo>, headerErr: Option<string>)
    returns (r: ValidationResult)
    ensures r.markdownFileCount == |doc.markdownFiles| && r.mediaItemCount == |doc.mediaItems|
    ensures r.totalMarkdownBytes == MarkdownBytes(doc.markdownFiles)
    ensures r.totalMediaBytes == MediaBytes(doc.mediaItems)
    ensures r.warnings == AllWarnings(doc, header, headerErr)
    ensures r.valid <==> r.warnings == []
  {
    var markdownBytes := SumMarkdownBytes(doc.markdownFiles);
    var mediaBytes := SumMediaBytes(doc.mediaItems);
    var valid, warnings := CheckHeader(header, headerErr);
    valid, warnings := CheckVersions(doc, valid, warnings);
    valid, warnings := ReportRepeats(MarkdownPaths(doc.markdownFiles), MarkdownPath, valid, warnings);
    valid, warnings := ReportRepeats(MediaIDs(doc.mediaItems), MediaID, valid, warnings);
    return ValidationResult(valid, |doc.markdownFiles|, |doc.mediaItems|, markdownBytes, mediaBytes, warnings);
  }

  method SumMarkdownBytes(files: seq<MarkdownFile>) returns (total: nat)
    ensures total == MarkdownBytes(files)
  {
    total := 0;
    for i := 0 to |files|
      invariant total == MarkdownBytes(files[..i])
    {
      assert files[..i + 1][..i] == files[..i];
      total := total + |files[i].content|;
    }
    assert files[..|files|] == files;
  }

  method SumMediaBytes(items: seq<MediaItem>) returns (total: nat)
    ensures total == MediaBytes(items)
  {
    total := 0;
    for i := 0 to |items|
      invariant total == MediaBytes(items[..i])
    {
      assert items[..i + 1][..i] == items[..i];
      total := total + |items[i].data|;
    }
    assert items[..|items|] == items;
  }

  /** The header part: the read error alone, or one warning per failed field check. */
  method CheckHeader(header: Option<HeaderInfo>, headerErr: Option<string>)
    returns (valid: bool, warnings: seq<Warning>)
    ensures warnings == HeaderWarnings(header, headerErr)
    ensures valid <==> warnings == []
  {
    valid, warnings := true, [];
    if headerErr.Some? {
      valid := false;
      warnings := warnings + [HeaderReadError(headerErr.value)];
    } else if header.Some? {
      var h := header.value;
      if !h.magicValid {
        valid := false;
        warnings := warnings + [InvalidMagic];
      }
      if h.version != ExpectedVersion {
        valid := false;
        warnings := warnings + [BadHeaderVersion(h.version)];
      }
      if h.fixedHdrSize != PreambleSize {
        valid := false;
        warnings := warnings + [BadFixedHeaderSize(h.fixedHdrSize)];
      }
      if !h.reservedClean {
        valid := false;
        warnings := warnings + [DirtyReservedBytes];
      }
    }
  }

  /** The two bundle-version checks, appended to what was found so far. */
  method CheckVersions(doc: Document, valid0: bool, warnings0: seq<Warning>)
    returns (valid: bool, warnings: seq<Warning>)
    requires valid0 <==> warnings0 == []
    ensures warnings == warnings0 + VersionWarnings(doc)
    ensures valid <==> warnings == []
  {
    valid, warnings := valid0, warnings0;
    if doc.markdownBundleVersion != ExpectedVersion {
      valid := false;
      warnings := warnings + [BadMarkdownBundleVersion(doc.markdownBundleVersion)];
    }
    if doc.mediaBundleVersion != ExpectedVersion {
      valid := false;
      warnings := warnings + [BadMediaBundleVersion(doc.mediaBundleVersion)];
    }
  }

  /** Scans `s` with a set of the values seen so far and appends a warning for every
      value `v` met a second time or later. */
  method ReportRepeats(s: seq<string>, kind: Kind, valid0: bool, warnings0: seq<Warning>)
    returns (valid: bool, warnings: seq<Warning>)
    requires valid0 <==> warnings0 == []
    ensures warnings == warnings0 + Tagged(Repeats(s), kind)
    ensures valid <==> warnings == []
  {
    valid, warnings := valid0, warnings0;
    var seen: set<string> := {};
    for i := 0 to |s|
      invariant seen == set k | 0 <= k < i :: s[k]
      invariant warnings == warnings0 + Tagged(Repeats(s[..i]), kind)
      invariant valid <==> warnings == []
    {
      assert s[..i + 1][..i] == s[..i];
      assert s[i] in seen <==> s[i] in s[..i];
      if s[i] in seen {
        valid := false;
        warnings := warnings + [Tag(kind, s[i])];
      }
      seen := seen + {s[i]};
    }
    assert s[..|s|] == s;
  }

  /** Distinct elements: no value occurs twice. */
  predicate Distinct(s: seq<string>) {
    forall i, j :: 0 <= i < j < |s| ==> s[i] != s[j]
  }

  /** A value occurring `n` times gives `n - 1` repeat warnings. */
  lemma {:induction false} RepeatsCount(s: seq<string>, x: string)
    ensures multiset(Repeats(s))[x] == if x in s then multiset(s)[x] - 1 else 0
  {
    if |s| > 0 {
      var init := s[..|s| - 1];
      var last := s[|s| - 1];
      assert s == init + [last];
      RepeatsCount(init, x);
      if x == last && last !in init {
        assert multiset(init)[x] == 0;
      }
    }
  }

  /** Every repeat is a value of the sequence. */
  lemma {:induction false} RepeatsWithin(s: seq<string>)
    ensures forall k :: 0 <= k < |Repeats(s)| ==> Repeats(s)[k] in s
  {
    if |s| > 0 {
      var init := s[..|s| - 1];
      RepeatsWithin(init);
      assert forall v :: v in init ==> v in s;
    }
  }

  /** There are no repeat warnings exactly when the values are distinct. */
  lemma {:induction false} RepeatsEmptyIffDistinct(s: seq<string>)
    ensures Repeats(s) == [] <==> Distinct(s)
  {
    if |s| > 0 {
      var init := s[..|s| - 1];
      var last := s[|s| - 1];
      RepeatsEmptyIffDistinct(init);
      assert s == init + [last];
      DistinctSnoc(init, last);
    }
  }

  /** Appending a value keeps a sequence distinct exactly when the value is new. */
  lemma DistinctSnoc(init: seq<string>, last: string)
    ensures Distinct(init + [last]) <==> Distinct(init) && last !in init
  {
    var s := init + [last];
    if Distinct(s) {
      forall i, j | 0 <= i < j < |init| ensures init[i] != init[j] {
        assert init[i] == s[i] && init[j] == s[j];
      }
      forall i | 0 <= i < |init| ensures init[i] != last {
        assert init[i] == s[i] && last == s[|init|];
      }
    }
  }

  /** Header fields the tool accepts. */
  predicate GoodHeader(h: HeaderInfo) {
    h.magicValid && h.version == ExpectedVersion && h.fixedHdrSize == PreambleSize && h.reservedClean
  }

  /** A document is valid exactly when the header was read without error and, if
      present, passes every field check, both bundles are at version 1, and neither
      the markdown paths nor the media IDs repeat. */
  lemma ValidIff(doc: Document, header: Option<HeaderInfo>, headerErr: Option<string>)
    ensures AllWarnings(doc, header, headerErr) == [] <==>
      && headerErr.None?
      && (header.Some? ==> GoodHeader(header.value))
      && doc.markdownBundleVersion == ExpectedVersion && doc.mediaBundleVersion == ExpectedVersion
      && Distinct(MarkdownPaths(doc.markdownFiles)) && Distinct(MediaIDs(doc.mediaItems))
  {
    RepeatsEmptyIffDistinct(MarkdownPaths(doc.markdownFiles));
    RepeatsEmptyIffDistinct(MediaIDs(doc.mediaItems));
  }

  /** The header and version checks never report a duplicate. */
  lemma NoDuplicateBeforeRepeats(doc: Document, header: Option<HeaderInfo>, headerErr: Option<string>, w: Warning)
    requires w.DuplicateMarkdownPath? || w.DuplicateMediaID?
    ensures multiset(HeaderWarnings(header, headerErr) + VersionWarnings(doc))[w] == 0
  {
    var h := HeaderWarnings(header, headerErr);
    var v := VersionWarnings(doc);
    HeaderNoDuplicate(header, headerErr, w);
    assert w !in v;
    assert multiset(h + v) == multiset(h) + multiset(v);
  }

  lemma HeaderNoDuplicate(header: Option<HeaderInfo>, headerErr: Option<string>, w: Warning)
    requires w.DuplicateMarkdownPath? || w.DuplicateMediaID?
    ensures w !in HeaderWarnings(header, headerErr)
  {
    if headerErr.None? && header.Some? {
      var i := header.value;
      var p1: seq<Warning> := if i.magicValid then [] else [InvalidMagic];
      var p2: seq<Warning> := if i.version == ExpectedVersion then [] else [BadHeaderVersion(i.version)];
      var p3: seq<Warning> := if i.fixedHdrSize == PreambleSize then [] else [BadFixedHeaderSize(i.fixedHdrSize)];
      var p4: seq<Warning> := if i.reservedClean then [] else [DirtyReservedBytes];
      assert HeaderWarnings(header, headerErr) == p1 + p2 + p3 + p4;
    }
  }

  /** The number of warnings about a markdown path is one less than its number of
      occurrences, and a path that occurs once draws none, whatever the header. */
  lemma DuplicatePathCount(doc: Document, header: Option<HeaderInfo>, headerErr: Option<string>, path: string)
    ensures var paths := MarkdownPaths(doc.markdownFiles);
      multiset(AllWarnings(doc, header, headerErr))[DuplicateMarkdownPath(path)]
        == if path in paths then multiset(paths)[path] - 1 else 0
  {
    var paths := MarkdownPaths(doc.markdownFiles);
    var w := DuplicateMarkdownPath(path);
    var a := HeaderWarnings(header, headerErr) + VersionWarnings(doc);
    var b := Tagged(Repeats(paths), MarkdownPath);
    var c := Tagged(Repeats(MediaIDs(doc.mediaItems)), MediaID);
    NoDuplicateBeforeRepeats(doc, header, headerErr, w);
    assert multiset(b)[w] == if path in paths then multiset(paths)[path] - 1 else 0 by {
      TaggedCount(Repeats(paths), MarkdownPath, path);
      RepeatsCount(paths, path);
    }
    assert multiset(c)[w] == 0 by {
      TaggedOther(Repeats(MediaIDs(doc.mediaItems)), MediaID, w);
    }
    assert AllWarnings(doc, header, headerErr) == a + b + c;
    assert multiset(a + b + c) == multiset(a) + multiset(b) + multiset(c);
  }

  /** Likewise, the warnings about a media ID number one less than its occurrences. */
  lemma DuplicateIDCount(doc: Document, header: Option<HeaderInfo>, headerErr: Option<string>, id: string)
    ensures var ids := MediaIDs(doc.mediaItems);
      multiset(AllWarnings(doc, header, headerErr))[DuplicateMediaID(id)]
        == if id in ids then multiset(ids)[id] - 1 else 0
  {
    var ids := MediaIDs(doc.mediaItems);
    var w := DuplicateMediaID(id);
    var a := HeaderWarnings(header, headerErr) + VersionWarnings(doc);
    var b := Tagged(Repeats(MarkdownPaths(doc.markdownFiles)), MarkdownPath);
    var c := Tagged(Repeats(ids), MediaID);
    NoDuplicateBeforeRepeats(doc, header, headerErr, w);
    assert multiset(b)[w] == 0 by {
      TaggedOther(Repeats(MarkdownPaths(doc.markdownFiles)), MarkdownPath, w);
    }
    assert multiset(c)[w] == if id in ids then multiset(ids)[id] - 1 else 0 by {
      TaggedCount(Repeats(ids), MediaID, id);
      RepeatsCount(ids, id);
    }
    assert AllWarnings(doc, header, headerErr) == a + b + c;
    assert multiset(a + b + c) == multiset(a) + multiset(b) + multiset(c);
  }

  /** Tagging preserves the count of each value. */
  lemma {:induction false} TaggedCount(reps: seq<string>, kind: Kind, v: string)
    ensures multiset(Tagged(reps, kind))[Tag(kind, v)] == multiset(reps)[v]
  {
    if |reps| > 0 {
      var init := reps[..|reps| - 1];
      assert reps == init + [reps[|reps| - 1]];
      assert Tagged(reps, kind) == Tagged(init, kind) + [Tag(kind, reps[|reps| - 1])];
      TaggedCount(init, kind, v);
    }
  }

  /** Tagged warnings are all of the one kind. */
  lemma {:induction false} TaggedOther(reps: seq<string>, kind: Kind, w: Warning)
    requires forall v :: Tag(kind, v) != w
    ensures multiset(Tagged(reps, kind))[w] == 0
  {
    if |reps| > 0 {
      var init := reps[..|reps| - 1];
      assert Tagged(reps, kind) == Tagged(init, kind) + [Tag(kind, reps[|reps| - 1])];
      TaggedOther(init, kind, w);
    }
  }

  /** Warnings about the preamble, as opposed to the bundles. */
  predicate IsHeaderWarning(w: Warning) {
    w.HeaderReadError? || w.InvalidMagic? || w.BadHeaderVersion? || w.BadFixedHeaderSize?
    || w.DirtyReservedBytes?
  }

  /** A header read error is reported alone: it comes first and no other preamble
      warning follows, whatever the preamble fields were. */
  lemma HeaderErrorAlone(doc: Document, header: Option<HeaderInfo>, message: string)
    ensures var w := AllWarnings(doc, header, Some(message));
      && |w| >= 1 && w[0] == HeaderReadError(message)
      && forall k :: 1 <= k < |w| ==> !IsHeaderWarning(w[k])
  {
    var paths := Tagged(Repeats(MarkdownPaths(doc.markdownFiles)), MarkdownPath);
    var ids := Tagged(Repeats(MediaIDs(doc.mediaItems)), MediaID);
    var w := AllWarnings(doc, header, Some(message));
    var v := VersionWarnings(doc);
    assert w == [HeaderReadError(message)] + (v + paths + ids);
    forall k | 1 <= k < |w| ensures !IsHeaderWarning(w[k]) {
      var j := k - 1;
      if j < |v| {
        assert w[k] == v[j];
      } else if j < |v| + |paths| {
        assert w[k] == paths[j - |v|];
      } else {
        assert w[k] == ids[j - |v| - |paths|];
      }
    }
  }

  /** A well-formed version-1 preamble draws no header warning. */
  lemma EncodedHeaderAccepted(flags: u16, metadataLength: u32)
    ensures HeaderWarnings(Some(DecodeHeader(EncodeHeader(1, flags, 32, metadataLength))), None) == []
  {
    DecodeEncode(1, flags, 32, metadataLength);
  }

  /** The same preamble with one reserved byte dirtied draws exactly one warning. */
  lemma DirtyHeaderWarning(flags: u16, metadataLength: u32, k: nat, b: byte)
    requires ReservedStart <= k < PreambleSize && b != 0
    ensures HeaderWarnings(Some(DecodeHeader(EncodeHeader(1, flags, 32, metadataLength)[k := b])), None)
      == [DirtyReservedBytes]
  {
    DirtyEncodedHeader(1, flags, 32, metadataLength, k, b);
  }
}
