/** Container paths and media IDs (`sanitizeContainerPath`, `makeIDFromPath` and
    `validateContainerPaths` in cmd/common.go). Container paths are slash-separated
    and relative; the sanitiser rejects anything that could escape the container
    and returns the path with repeated and trailing slashes removed. */
module ContainerPaths {
  import opened Results
  import Text
  import opened Bundle

  /** Why a path was rejected. Every variant but `EmptyPath` carries the trimmed path. */
  datatype PathError =
    | EmptyPath
    | Backslash(path: string)
    | NotRelative(path: string)
    | Traversal(path: string)
    | Invalid(path: string)

  predicate DotSegment(seg: string) {
    seg == "." || seg == ".."
  }

  predicate NoDotSegments(segs: seq<string>) {
    forall k :: 0 <= k < |segs| ==> !DotSegment(segs[k])
  }

  /** The checks made before cleaning: non-empty, no backslash, no leading slash,
      no colon and no `.` or `..` segment. */
  predicate Acceptable(t: string) {
    && t != ""
    && '\\' !in t
    && t[0] != '/'
    && ':' !in t
    && NoDotSegments(Text.Split(t, '/'))
  }

  /** A path the sanitiser can return: acceptable, with no empty segment. */
  predicate IsCleanPath(c: string) {
    && Acceptable(c)
    && forall k :: 0 <= k < |Text.Split(c, '/')| ==> Text.Split(c, '/')[k] != ""
  }

  /** The segments that are not empty, in order. */
  function NonEmptySegments(segs: seq<string>): (r: seq<string>)
    ensures |r| <= |segs|
    ensures forall k :: 0 <= k < |r| ==> r[k] != "" && r[k] in segs
    ensures (forall k :: 0 <= k < |segs| ==> segs[k] != "") ==> r == segs
  {
    if |segs| == 0 then []
    else if segs[0] == "" then NonEmptySegments(segs[1..])
    else [segs[0]] + NonEmptySegments(segs[1..])
  }

  /** `path.Clean` on a path that passed the earlier checks: with no `.` or `..`
      segment and no leading slash, cleaning only drops empty segments. */
  function CleanRelative(t: string): string {
    Text.Join(NonEmptySegments(Text.Split(t, '/')), '/')
  }

  /** Cleaning an acceptable path gives a clean path made of its non-empty segments;
      in particular it is never `.`, `..` or below `../`. */
  lemma {:induction false} CleanRelativeFacts(t: string)
    requires Acceptable(t)
    ensures var c := CleanRelative(t);
      && IsCleanPath(c)
      && Text.Split(c, '/') == NonEmptySegments(Text.Split(t, '/'))
      && c != "." && c != ".." && !Text.HasPrefix(c, "../")
  {
    var segs := Text.Split(t, '/');
    var ne := NonEmptySegments(segs);
    var c := Text.Join(ne, '/');
    Text.SplitHead(t, '/');
    assert ne[0] == segs[0];
    forall k | 0 <= k < |ne|
      ensures '/' !in ne[k] && !DotSegment(ne[k])
    {
      var j :| 0 <= j < |segs| && segs[j] == ne[k];
    }
    Text.SplitJoin(ne, '/');
    Text.JoinHead(ne, '/');
    assert c[0] == t[0];
    forall x | x in c && (x == '\\' || x == ':')
      ensures false
    {
      Text.JoinChars(ne, '/', x);
      var k :| 0 <= k < |ne| && x in ne[k];
      var j :| 0 <= j < |segs| && segs[j] == ne[k];
      Text.SplitChars(t, '/', j, x);
    }
    FirstSegmentNotDots(c, ne[0]);
  }

  /** A path whose first segment is non-empty, slash-free and not a dot segment is
      neither `.` nor `..` and does not start with `../`. */
  lemma FirstSegmentNotDots(c: string, first: string)
    requires Text.HasPrefix(c, first) && first != "" && '/' !in first && !DotSegment(first)
    ensures c != "." && c != ".." && !Text.HasPrefix(c, "../")
  {
    assert c[..|first|] == first;
    if |first| == 1 {
      assert first == c[..1];
    } else if |first| == 2 {
      assert first == c[..2];
    } else {
      assert c[2] == first[2] != '/';
    }
  }

  /** `sanitizeContainerPath`: trims white space, applies the checks in order and
      returns the cleaned path. The two checks after cleaning are kept as written;
      `SanitizeErrors` shows they never fire. */
  function SanitizeContainerPath(p: string): (r: Result<string, PathError>)
    ensures r.Success? <==> Acceptable(Text.TrimSpace(p))
  {
    var t := Text.TrimSpace(p);
    if t == "" then Failure(EmptyPath)
    else if '\\' in t then Failure(Backslash(t))
    else if Text.HasPrefix(t, "/") then Failure(NotRelative(t))
    else if ':' in t then Failure(NotRelative(t))
    else if !NoDotSegments(Text.Split(t, '/')) then Failure(Traversal(t))
    else
      CleanRelativeFacts(t);
      var clean := CleanRelative(t);
      if clean == "." then Failure(Invalid(t))
      else if clean == ".." || Text.HasPrefix(clean, "../") then Failure(Traversal(t))
      else Success(clean)
  }

  /** A sanitised path is clean, and its segments are exactly the non-empty segments
      of the trimmed input: repeated and trailing slashes are dropped, nothing else. */
  lemma SanitizeClean(p: string)
    requires SanitizeContainerPath(p).Success?
    ensures var c := SanitizeContainerPath(p).value;
      && IsCleanPath(c)
      && Text.Split(c, '/') == NonEmptySegments(Text.Split(Text.TrimSpace(p), '/'))
  {
    CleanRelativeFacts(Text.TrimSpace(p));
  }

  /** The error is decided by the first failing check on the trimmed path; the
      checks after cleaning never fire, so `Invalid` is never reported. */
  lemma SanitizeErrors(p: string)
    requires SanitizeContainerPath(p).Failure?
    ensures var t := Text.TrimSpace(p);
      SanitizeContainerPath(p).error == if t == "" then EmptyPath
                                        else if '\\' in t then Backslash(t)
                                        else if t[0] == '/' || ':' in t then NotRelative(t)
                                        else Traversal(t)
  {
  }

  /** A clean path with no white space at its ends is its own sanitisation. */
  lemma SanitizeCleanPath(c: string)
    requires IsCleanPath(c)
    requires !Text.IsSpace(c[0]) && !Text.IsSpace(c[|c| - 1])
    ensures SanitizeContainerPath(c) == Success(c)
  {
    Text.TrimSpaceNoEdges(c);
    Text.JoinSplit(c, '/');
    assert NonEmptySegments(Text.Split(c, '/')) == Text.Split(c, '/');
  }

  /** Sanitising is idempotent unless cleaning exposed white space at an end of the
      path (a trimmed path such as `a /` cleans to `a `, which trims further). */
  lemma SanitizeIdempotent(p: string)
    requires SanitizeContainerPath(p).Success?
    requires var c := SanitizeContainerPath(p).value;
      !Text.IsSpace(c[0]) && !Text.IsSpace(c[|c| - 1])
    ensures SanitizeContainerPath(SanitizeContainerPath(p).value) == SanitizeContainerPath(p)
  {
    SanitizeClean(p);
    SanitizeCleanPath(SanitizeContainerPath(p).value);
  }

  /** A plain path segment: non-empty, not a dot segment, and free of the characters
      the sanitiser rejects or splits on. */
  predicate PlainSegment(seg: string) {
    seg != "" && !DotSegment(seg) && '/' !in seg && '\\' !in seg && ':' !in seg
  }

  /** Repeated slashes are collapsed: `a//b` sanitises to `a/b` (as `docs//readme.md`
      becomes `docs/readme.md`). */
  lemma CollapsesDoubleSlash(a: string, b: string)
    requires PlainSegment(a) && PlainSegment(b)
    requires !Text.IsSpace(a[0]) && !Text.IsSpace(b[|b| - 1])
    ensures SanitizeContainerPath(a + "//" + b) == Success(a + "/" + b)
  {
    var t := a + "//" + b;
    DoubleSlashAcceptable(a, b);
    Text.TrimSpaceNoEdges(t);
    SanitizeValue(t);
    assert NonEmptySegments([a, "", b]) == [a, b] by {
      assert [a, "", b][1..] == ["", b];
      assert ["", b][1..] == [b];
    }
    assert Text.Join([a, b], '/') == a + "/" + b;
  }

  lemma DoubleSlashAcceptable(a: string, b: string)
    requires PlainSegment(a) && PlainSegment(b)
    ensures Text.Split(a + "//" + b, '/') == [a, "", b]
    ensures Acceptable(a + "//" + b)
  {
    DoubleSlashSplit(a, b);
    forall x | x in a + "//" + b && (x == '\\' || x == ':')
      ensures false
    {
      Text.JoinChars([a, "", b], '/', x);
    }
  }

  lemma DoubleSlashSplit(a: string, b: string)
    requires '/' !in a && '/' !in b
    ensures Text.Join([a, "", b], '/') == a + "//" + b
    ensures Text.Split(a + "//" + b, '/') == [a, "", b]
  {
    assert Text.Join([b], '/') == b;
    assert Text.Join(["", b], '/') == "/" + b;
    assert a + "//" + b == a + ['/'] + ("/" + b);
    Text.SplitJoin([a, "", b], '/');
  }

  /** What a successful sanitisation returns: the cleaned trimmed path. */
  lemma SanitizeValue(p: string)
    requires SanitizeContainerPath(p).Success?
    ensures SanitizeContainerPath(p).value == CleanRelative(Text.TrimSpace(p))
  {
  }

  /** A path that starts by climbing out of the container is rejected. */
  lemma RejectsParentPrefix(b: string)
    ensures SanitizeContainerPath("../" + b).Failure?
  {
    var s := "../" + b;
    var t := Text.TrimSpace(s);
    Text.TrimSlice(s, Text.IsSpace);
    Text.LeftCountFacts(s, Text.IsSpace);
    Text.RightEndFacts(s, Text.IsSpace);
    assert Text.LeftCount(s, Text.IsSpace) == 0;
    assert |t| >= 3 by {
      Text.TrimFacts(s, Text.IsSpace);
      assert !Text.IsSpace(s[2]);
    }
    assert t == ".." + t[2..];
    Text.SplitPrepend("..", t[2..], '/');
    assert Text.Split(t[2..], '/')[0] == "" by {
      assert t[2..][0] == '/';
    }
  }

  /** An absolute path is rejected. */
  lemma RejectsAbsolute(b: string)
    ensures SanitizeContainerPath("/" + b).Failure?
  {
    var s := "/" + b;
    Text.LeftCountFacts(s, Text.IsSpace);
    assert Text.LeftCount(s, Text.IsSpace) == 0;
    Text.TrimFacts(s, Text.IsSpace);
    Text.TrimSlice(s, Text.IsSpace);
  }

  // ---------------------------------------------------------------------------
  // Media IDs

  predicate IsAlnum(c: char) {
    Text.IsLowerLetter(c) || Text.IsDigit(c)
  }

  predicate IsIdChar(c: char) {
    IsAlnum(c) || c == '_'
  }

  /** Keeps a lower-case letter or digit and replaces every other character by `_`. */
  function IdChar(c: char): (r: char)
    ensures IsIdChar(r)
    ensures IsAlnum(c) <==> r == c && r != '_'
  {
    if IsAlnum(c) then c else '_'
  }

  function IdChars(s: string): (r: string)
    ensures |r| == |s|
    ensures forall k :: 0 <= k < |s| ==> r[k] == IdChar(s[k])
  {
    if |s| == 0 then "" else [IdChar(s[0])] + IdChars(s[1..])
  }

  /** The letters and digits of `s`, in order. */
  function Alnums(s: string): string {
    if |s| == 0 then ""
    else if IsAlnum(s[0]) then [s[0]] + Alnums(s[1..])
    else Alnums(s[1..])
  }

  predicate IsUnderscore(c: char) {
    c == '_'
  }

  /** The shape of every media ID the tool derives: non-empty, made of lower-case
      letters, digits and `_`, and not starting or ending with `_`. */
  predicate IsMediaID(id: string) {
    && id != ""
    && (forall k :: 0 <= k < |id| ==> IsIdChar(id[k]))
    && id[0] != '_' && id[|id| - 1] != '_'
  }

  /** The ID used when a path has no letter or digit. */
  const DefaultMediaID: string := "media"

  lemma DefaultMediaIDShape(id: string)
    requires id == DefaultMediaID
    ensures IsMediaID(id)
  {
  }

  /** `id` is a run of `s` with nothing but `_` before and after it. */
  predicate RunBetweenUnderscores(id: string, s: string) {
    exists i, j :: 0 <= i <= j <= |s| && id == s[i..j]
      && (forall k :: 0 <= k < i ==> s[k] == '_')
      && (forall k :: j <= k < |s| ==> s[k] == '_')
  }

  /** `makeIDFromPath`: lower-cases the path, replaces every character other than a
      letter or digit by `_`, trims `_` from both ends and falls back to `media`.
      The letters and digits of the path survive, in order, and every other
      character between the first and the last of them becomes one `_`. */
  function MakeIDFromPath(p: string): (id: string)
    ensures IsMediaID(id)
    ensures Alnums(Text.ToLower(p)) == "" ==> id == DefaultMediaID
    ensures Alnums(Text.ToLower(p)) != "" ==> Alnums(id) == Alnums(Text.ToLower(p))
    ensures Alnums(Text.ToLower(p)) != "" ==> RunBetweenUnderscores(id, IdChars(Text.ToLower(p)))
  {
    var mapped := IdChars(Text.ToLower(p));
    var trimmed := Text.Trim(mapped, IsUnderscore);
    AlnumsIdChars(Text.ToLower(p));
    AlnumsTrim(mapped);
    if trimmed == "" then
      Text.TrimFacts(mapped, IsUnderscore);
      AlnumsOfUnderscores(mapped);
      DefaultMediaIDShape(DefaultMediaID);
      DefaultMediaID
    else
      TrimmedIdShape(mapped);
      TrimmedUnderscores(mapped);
      trimmed
  }

  /** Trimming `_` keeps one run of the string and drops only `_` around it. */
  lemma TrimmedUnderscores(s: string)
    ensures RunBetweenUnderscores(Text.Trim(s, IsUnderscore), s)
  {
    var i := Text.LeftCount(s, IsUnderscore);
    var l := s[i..];
    var j := i + Text.RightEnd(l, IsUnderscore);
    Text.LeftCountFacts(s, IsUnderscore);
    Text.RightEndFacts(l, IsUnderscore);
    forall k | j <= k < |s|
      ensures s[k] == '_'
    {
      assert s[k] == l[k - i];
    }
    assert Text.Trim(s, IsUnderscore) == s[i..j];
  }

  /** When mapping the lower-cased path already gives a media ID, that is the ID:
      the derivation trims nothing. */
  lemma MakeIDOfMapped(p: string)
    requires IsMediaID(IdChars(Text.ToLower(p)))
    ensures MakeIDFromPath(p) == IdChars(Text.ToLower(p))
  {
    var t := IdChars(Text.ToLower(p));
    AlnumsIdChars(Text.ToLower(p));
    assert t == [t[0]] + t[1..];
    assert IsAlnum(t[0]);
    var id := MakeIDFromPath(p);
    var i, j :| 0 <= i <= j <= |t| && id == t[i..j]
      && (forall k :: 0 <= k < i ==> t[k] == '_')
      && (forall k :: j <= k < |t| ==> t[k] == '_');
    assert i == 0 && j == |t|;
  }

  /** A path whose characters, lower-cased and mapped one by one, spell a media ID
      has that ID. */
  lemma MakeIDOfChars(p: string, id: string)
    requires |id| == |p| && forall k :: 0 <= k < |p| ==> IdChar(Text.LowerChar(p[k])) == id[k]
    requires IsMediaID(id)
    ensures MakeIDFromPath(p) == id
  {
    Text.ToLowerChars(p);
    assert IdChars(Text.ToLower(p)) == id;
    MakeIDOfMapped(p);
  }

  /** Cases from the tool's own tests: a dot, a slash and upper case. */
  lemma MakeIDExamples(p: string, id: string)
    requires (p, id) in [("img.png", "img_png"), ("assets/logo.png", "assets_logo_png"), ("UPPER.JPG", "upper_jpg")]
    ensures MakeIDFromPath(p) == id
  {
    MakeIDOfChars(p, id);
  }

  /** Cases from the tool's own tests: a hyphen and an underscore both become `_`,
      and digits are kept. */
  lemma MakeIDMoreExamples(p: string, id: string)
    requires (p, id) in [("a-b.png", "a_b_png"), ("a_b.png", "a_b_png"), ("123.png", "123_png")]
    ensures MakeIDFromPath(p) == id
  {
    MakeIDOfChars(p, id);
  }

  /** Cases from the tool's own tests: a path without letters or digits gets the
      default ID. */
  lemma MakeIDDefaultExamples()
    ensures MakeIDFromPath("---") == DefaultMediaID
    ensures MakeIDFromPath("") == DefaultMediaID
  {
    assert Alnums(Text.ToLower("---")) == "" by {
      Text.ToLowerChars("---");
      assert Text.ToLower("---") == "---";
    }
  }

  /** Trimming `_` from a string of ID characters leaves a media ID, unless nothing is
      left. */
  lemma TrimmedIdShape(s: string)
    requires forall k :: 0 <= k < |s| ==> IsIdChar(s[k])
    ensures var t := Text.Trim(s, IsUnderscore); t != "" ==> IsMediaID(t)
  {
    Text.TrimSlice(s, IsUnderscore);
    Text.TrimFacts(s, IsUnderscore);
  }

  lemma {:induction false} AlnumsIdChars(s: string)
    ensures Alnums(IdChars(s)) == Alnums(s)
  {
    if |s| > 0 {
      AlnumsIdChars(s[1..]);
      assert IdChars(s)[1..] == IdChars(s[1..]);
    }
  }

  lemma {:induction false} AlnumsAppend(a: string, b: string)
    ensures Alnums(a + b) == Alnums(a) + Alnums(b)
  {
    if |a| == 0 {
      assert a + b == b;
    } else {
      AlnumsAppend(a[1..], b);
      assert (a + b)[0] == a[0] && (a + b)[1..] == a[1..] + b;
      if IsAlnum(a[0]) {
        calc {
          Alnums(a + b);
          [a[0]] + Alnums(a[1..] + b);
          [a[0]] + (Alnums(a[1..]) + Alnums(b));
          ([a[0]] + Alnums(a[1..])) + Alnums(b);
        }
      }
    }
  }

  lemma {:induction false} AlnumsOfUnderscores(s: string)
    requires forall k :: 0 <= k < |s| ==> s[k] == '_'
    ensures Alnums(s) == ""
  {
    if |s| > 0 {
      AlnumsOfUnderscores(s[1..]);
    }
  }

  /** Trimming underscores loses no letter or digit. */
  lemma AlnumsTrim(s: string)
    ensures Alnums(Text.Trim(s, IsUnderscore)) == Alnums(s)
  {
    var i := Text.LeftCount(s, IsUnderscore);
    var l := s[i..];
    var j := Text.RightEnd(l, IsUnderscore);
    Text.LeftCountFacts(s, IsUnderscore);
    Text.RightEndFacts(l, IsUnderscore);
    AlnumsUnderscorePrefix(s, i);
    AlnumsUnderscoreSuffix(l, j);
  }

  lemma AlnumsUnderscorePrefix(s: string, i: nat)
    requires i <= |s| && forall k :: 0 <= k < i ==> s[k] == '_'
    ensures Alnums(s[i..]) == Alnums(s)
  {
    assert s == s[..i] + s[i..];
    AlnumsAppend(s[..i], s[i..]);
    AlnumsOfUnderscores(s[..i]);
  }

  lemma AlnumsUnderscoreSuffix(s: string, j: nat)
    requires j <= |s| && forall k :: j <= k < |s| ==> s[k] == '_'
    ensures Alnums(s[..j]) == Alnums(s)
  {
    assert s == s[..j] + s[j..];
    AlnumsAppend(s[..j], s[j..]);
    AlnumsOfUnderscores(s[j..]);
  }

  /** Every media ID is its own ID: it is already lower case, has nothing to replace
      and nothing to trim. */
  lemma MediaIDFixed(id: string)
    requires IsMediaID(id)
    ensures MakeIDFromPath(id) == id
  {
    Text.ToLowerNoUpper(id);
    var mapped := IdChars(id);
    assert mapped == id;
    assert Text.LeftCount(id, IsUnderscore) == 0;
    assert Text.RightEnd(id, IsUnderscore) == |id|;
  }

  /** Deriving an ID twice changes nothing. */
  lemma MakeIDIdempotent(p: string)
    ensures MakeIDFromPath(MakeIDFromPath(p)) == MakeIDFromPath(p)
  {
    MediaIDFixed(MakeIDFromPath(p));
  }

  /** Characters that are not letters or digits all collapse to `_`, so two paths
      that differ only in such characters get the same ID (`a-b.png` and `a_b.png`
      both give `a_b_png`). */
  lemma MakeIDSeparatorsCollide(a: string, b: string, x: char, y: char)
    requires !IsAlnum(Text.LowerChar(x)) && !IsAlnum(Text.LowerChar(y))
    ensures MakeIDFromPath(a + [x] + b) == MakeIDFromPath(a + [y] + b)
  {
    var s1, s2 := a + [x] + b, a + [y] + b;
    var l1, l2 := Text.ToLower(s1), Text.ToLower(s2);
    Text.ToLowerChars(s1);
    Text.ToLowerChars(s2);
    forall k | 0 <= k < |s1|
      ensures IdChar(l1[k]) == IdChar(l2[k])
    {
      if k != |a| {
        assert s1[k] == s2[k];
      }
    }
    assert IdChars(l1) == IdChars(l2);
  }

  // ---------------------------------------------------------------------------
  // Document-level check

  /** The first problem `validateContainerPaths` reports, with the item's index. */
  datatype ValidationError =
    | MarkdownPathError(index: nat, cause: PathError)
    | MediaPathError(index: nat, cause: PathError)
    | EmptyMediaID(index: nat)

  predicate MarkdownPathOk(f: MarkdownFile) {
    SanitizeContainerPath(f.path).Success?
  }

  /** A media item may have no path, but a path it has must sanitise. */
  predicate MediaPathOk(m: MediaItem) {
    m.path == "" || SanitizeContainerPath(m.path).Success?
  }

  predicate MediaIdOk(m: MediaItem) {
    Text.TrimSpace(m.id) != ""
  }

  predicate MediaOk(m: MediaItem) {
    MediaPathOk(m) && MediaIdOk(m)
  }

  /** `err` is what the check reports for the failing markdown file `f` at index `i`. */
  predicate MarkdownFailure(f: MarkdownFile, i: nat, err: ValidationError) {
    match err
    case MarkdownPathError(k, cause) => k == i && SanitizeContainerPath(f.path) == Failure(cause)
    case _ => false
  }

  /** `err` is what the check reports for the failing media item `m` at index `i`:
      a bad path when it has one, otherwise a blank ID. */
  predicate MediaFailure(m: MediaItem, i: nat, err: ValidationError) {
    match err
    case MediaPathError(k, cause) => k == i && m.path != "" && SanitizeContainerPath(m.path) == Failure(cause)
    case EmptyMediaID(k) => k == i && MediaPathOk(m) && !MediaIdOk(m)
    case MarkdownPathError(_, _) => false
  }

  /** The check of one media item: its path (when it has one) before its ID. */
  method CheckMediaItem(i: nat, m: MediaItem) returns (e: Option<ValidationError>)
    ensures e.None? <==> MediaOk(m)
    ensures e.Some? ==> MediaFailure(m, i, e.value)
  {
    if m.path != "" {
      var s := SanitizeContainerPath(m.path);
      if s.Failure? {
        return Some(MediaPathError(i, s.error));
      }
    }
    if Text.TrimSpace(m.id) == "" {
      return Some(EmptyMediaID(i));
    }
    return None;
  }

  /** The markdown half of `validateContainerPaths`: the first file whose path does
      not sanitise. */
  method CheckMarkdownPaths(files: seq<MarkdownFile>) returns (e: Option<ValidationError>)
    ensures e.None? <==> forall i :: 0 <= i < |files| ==> MarkdownPathOk(files[i])
    ensures e.Some? ==>
      && e.value.index < |files|
      && (forall j :: 0 <= j < e.value.index ==> MarkdownPathOk(files[j]))
      && MarkdownFailure(files[e.value.index], e.value.index, e.value)
  {
    for i := 0 to |files|
      invariant forall j :: 0 <= j < i ==> MarkdownPathOk(files[j])
    {
      var s := SanitizeContainerPath(files[i].path);
      if s.Failure? {
        return Some(MarkdownPathError(i, s.error));
      }
    }
    return None;
  }

  /** The media half of `validateContainerPaths`: the first item that fails. */
  method CheckMediaItems(items: seq<MediaItem>) returns (e: Option<ValidationError>)
    ensures e.None? <==> forall i :: 0 <= i < |items| ==> MediaOk(items[i])
    ensures e.Some? ==>
      && e.value.index < |items|
      && (forall j :: 0 <= j < e.value.index ==> MediaOk(items[j]))
      && MediaFailure(items[e.value.index], e.value.index, e.value)
  {
    for i := 0 to |items|
      invariant forall j :: 0 <= j < i ==> MediaOk(items[j])
    {
      var e := CheckMediaItem(i, items[i]);
      if e.Some? {
        return e;
      }
    }
    return None;
  }

  /** `validateContainerPaths`: markdown files first, then media items; within an
      item the path is checked before the ID. It passes exactly when every item is
      fine, and otherwise reports the first failing item. */
  method ValidateContainerPaths(doc: Document) returns (r: Outcome<ValidationError>)
    ensures r.Pass? <==>
      && (forall i :: 0 <= i < |doc.markdownFiles| ==> MarkdownPathOk(doc.markdownFiles[i]))
      && (forall i :: 0 <= i < |doc.mediaItems| ==> MediaOk(doc.mediaItems[i]))
    ensures r.Fail? && r.error.MarkdownPathError? ==>
      && r.error.index < |doc.markdownFiles|
      && (forall j :: 0 <= j < r.error.index ==> MarkdownPathOk(doc.markdownFiles[j]))
      && MarkdownFailure(doc.markdownFiles[r.error.index], r.error.index, r.error)
    ensures r.Fail? && !r.error.MarkdownPathError? ==>
      && (forall j :: 0 <= j < |doc.markdownFiles| ==> MarkdownPathOk(doc.markdownFiles[j]))
      && r.error.index < |doc.mediaItems|
      && (forall j :: 0 <= j < r.error.index ==> MediaOk(doc.mediaItems[j]))
      && MediaFailure(doc.mediaItems[r.error.index], r.error.index, r.error)
  {
    var e := CheckMarkdownPaths(doc.markdownFiles);
    if e.Some? {
      return Fail(e.value);
    }
    e := CheckMediaItems(doc.mediaItems);
    if e.Some? {
      return Fail(e.value);
    }
    return Pass;
  }
}
