/** The summary printed by the `inspect` command (`buildInspectSummary` in
    cmd/inspect.go): sorted metadata keys, markdown paths, media IDs and the media
    paths that are set, next to the preamble report passed through unchanged. */
module Inspect {
  import opened Results
  import opened Header
  import opened Bundle
  import opened Sorting

  /** `inspectSummary`. */
  datatype InspectSummary = InspectSummary(
    header: Option<HeaderInfo>,
    metadataKeys: seq<string>,
    markdownFiles: seq<string>,
    mediaIDs: seq<string>,
    mediaPaths: seq<string>)

  /** The metadata keys; a document without metadata has none. */
  function MetadataKeys(doc: Document): set<string> {
    if doc.metadata.Some? then doc.metadata.value.Keys else {}
  }

  /** The media paths that are set, in document order. */
  function PresentPaths(items: seq<MediaItem>): (r: seq<string>)
    ensures |r| <= |items|
  {
    if |items| == 0 then []
    else
      var last := items[|items| - 1];
      PresentPaths(items[..|items| - 1]) + (if last.path != "" then [last.path] else [])
  }

  /** The path of a media item, set or not. */
  function MediaPath(item: MediaItem): string {
    item.path
  }

  /** `buildInspectSummary`: the lists are collected in document (or map) order and
      then sorted. */
  method BuildInspectSummary(doc: Document, header: Option<HeaderInfo>) returns (s: InspectSummary)
    ensures s.header == header
    ensures StrictlySorted(s.metadataKeys) && |s.metadataKeys| == |MetadataKeys(doc)|
    ensures forall k :: k in s.metadataKeys <==> k in MetadataKeys(doc)
    ensures Sorted(s.markdownFiles) && multiset(s.markdownFiles) == multiset(MarkdownPaths(doc.markdownFiles))
    ensures Sorted(s.mediaIDs) && multiset(s.mediaIDs) == multiset(MediaIDs(doc.mediaItems))
    ensures Sorted(s.mediaPaths) && multiset(s.mediaPaths) == multiset(PresentPaths(doc.mediaItems))
    ensures |s.mediaPaths| <= |doc.mediaItems|
  {
    var keys := CollectKeys(MetadataKeys(doc));
    var ids, paths := CollectMedia(doc.mediaItems);
    var sortedKeys := Sort(keys);
    SortedDistinct(sortedKeys);
    assert forall k :: k in sortedKeys <==> k in multiset(sortedKeys);
    assert forall k :: k in keys <==> k in multiset(keys);
    s := InspectSummary(header, sortedKeys, Sort(MarkdownPaths(doc.markdownFiles)), Sort(ids), Sort(paths));
  }

  /** Lists the keys of a map in an arbitrary order, as ranging over a Go map does. */
  method CollectKeys(domain: set<string>) returns (keys: seq<string>)
    ensures forall k :: k in keys <==> k in domain
    ensures forall k :: multiset(keys)[k] <= 1
    ensures |keys| == |domain|
  {
    keys := [];
    var remaining := domain;
    while remaining != {}
      invariant remaining <= domain
      invariant forall k :: k in keys <==> k in domain && k !in remaining
      invariant forall k :: multiset(keys)[k] <= 1
      invariant |keys| + |remaining| == |domain|
      decreases |remaining|
    {
      var k :| k in remaining;
      assert multiset(keys)[k] == 0;
      keys := keys + [k];
      remaining := remaining - {k};
    }
  }

  /** One pass over the media items: every ID, and every path that is set. */
  method CollectMedia(items: seq<MediaItem>) returns (ids: seq<string>, paths: seq<string>)
    ensures ids == MediaIDs(items)
    ensures paths == PresentPaths(items)
  {
    ids, paths := [], [];
    for i := 0 to |items|
      invariant ids == MediaIDs(items[..i])
      invariant paths == PresentPaths(items[..i])
    {
      assert items[..i + 1][..i] == items[..i];
      ids := ids + [items[i].id];
      if items[i].path != "" {
        paths := paths + [items[i].path];
      }
    }
    assert items[..|items|] == items;
  }

  /** Only the set paths are listed, each as often as it is set: the empty path is
      left out and every other path keeps its number of occurrences. */
  lemma {:induction false} PresentPathsCount(items: seq<MediaItem>, p: string)
    ensures multiset(PresentPaths(items))[p] == if p == "" then 0 else multiset(Image(items, MediaPath))[p]
  {
    if |items| > 0 {
      PresentPathsCount(items[..|items| - 1], p);
      PathsSnoc(items);
    }
  }

  /** How both path lists grow by the last item. */
  lemma PathsSnoc(items: seq<MediaItem>)
    requires |items| > 0
    ensures var init, last := items[..|items| - 1], items[|items| - 1].path;
      && multiset(Image(items, MediaPath)) == multiset(Image(init, MediaPath)) + multiset{last}
      && multiset(PresentPaths(items))
         == multiset(PresentPaths(init)) + (if last != "" then multiset{last} else multiset{})
  {
    var init, last := items[..|items| - 1], items[|items| - 1].path;
    assert Image(items, MediaPath) == Image(init, MediaPath) + [last];
  }

  /** The sorted key list does not depend on the order in which the map was
      ranged over: any two listings of the same keys sort to the same list. */
  lemma KeysOrderIndependent(keys: seq<string>, keys': seq<string>)
    requires forall k :: k in keys <==> k in keys'
    requires forall k :: multiset(keys)[k] <= 1 && multiset(keys')[k] <= 1
    ensures Sort(keys) == Sort(keys')
  {
    assert forall k :: k in keys <==> k in multiset(keys);
    assert forall k :: k in keys' <==> k in multiset(keys');
    assert multiset(keys) == multiset(keys');
    SortPermutation(keys, keys');
  }

  /** The image of a sequence under `f`, element by element. */
  function Image<T>(s: seq<T>, f: T -> string): (r: seq<string>)
    ensures |r| == |s|
  {
    seq(|s|, k requires 0 <= k < |s| => f(s[k]))
  }

  /** Permuting a sequence permutes its image. */
  lemma {:induction false} ImagePermutation<T>(a: seq<T>, b: seq<T>, f: T -> string)
    requires multiset(a) == multiset(b)
    ensures multiset(Image(a, f)) == multiset(Image(b, f))
  {
    if |a| > 0 {
      assert a[0] in multiset(b);
      var j :| 0 <= j < |b| && b[j] == a[0];
      PermutationTail(a, b, j);
      ImagePermutation(a[1..], b[..j] + b[j + 1..], f);
      ImageStep(a, b, j, f);
    } else {
      assert |b| == |multiset(b)| == 0;
    }
  }

  /** Taking the same value out of two permutations of each other leaves two
      permutations of each other. */
  lemma PermutationTail<T>(a: seq<T>, b: seq<T>, j: nat)
    requires |a| > 0 && j < |b| && b[j] == a[0] && multiset(a) == multiset(b)
    ensures multiset(a[1..]) == multiset(b[..j] + b[j + 1..])
  {
    assert a == [a[0]] + a[1..];
    assert multiset(a[1..]) == multiset(a) - multiset{a[0]};
    RemoveAt(b, j);
  }

  /** The inductive step of `ImagePermutation`. */
  lemma ImageStep<T>(a: seq<T>, b: seq<T>, j: nat, f: T -> string)
    requires |a| > 0 && j < |b| && b[j] == a[0]
    requires multiset(Image(a[1..], f)) == multiset(Image(b[..j] + b[j + 1..], f))
    ensures multiset(Image(a, f)) == multiset(Image(b, f))
  {
    ImageRemoveAt(a, 0, f);
    assert a[..0] + a[1..] == a[1..];
    ImageRemoveAt(b, j, f);
  }

  /** Removing the element at `j` removes one occurrence of it. */
  lemma RemoveAt<T>(b: seq<T>, j: nat)
    requires j < |b|
    ensures multiset(b[..j] + b[j + 1..]) == multiset(b) - multiset{b[j]}
  {
    assert b == b[..j] + [b[j]] + b[j + 1..];
  }

  /** Removing the element at `j` removes one occurrence of its image. */
  lemma ImageRemoveAt<T>(s: seq<T>, j: nat, f: T -> string)
    requires j < |s|
    ensures multiset(Image(s, f)) == multiset(Image(s[..j] + s[j + 1..], f)) + multiset{f(s[j])}
  {
    var left, right := Image(s[..j], f), Image(s[j + 1..], f);
    assert Image(s, f) == left + [f(s[j])] + right;
    assert Image(s[..j] + s[j + 1..], f) == left + right;
  }

  /** The summary does not depend on the order of the markdown files or the media
      items: reordering them gives the same lists. */
  lemma SummaryOrderIndependent(files: seq<MarkdownFile>, files': seq<MarkdownFile>,
                                items: seq<MediaItem>, items': seq<MediaItem>)
    requires multiset(files) == multiset(files') && multiset(items) == multiset(items')
    ensures Sort(MarkdownPaths(files)) == Sort(MarkdownPaths(files'))
    ensures Sort(MediaIDs(items)) == Sort(MediaIDs(items'))
    ensures Sort(PresentPaths(items)) == Sort(PresentPaths(items'))
  {
    var path := (m: MarkdownFile) => m.path;
    var id := (m: MediaItem) => m.id;
    ImagePermutation(files, files', path);
    ImagePermutation(items, items', id);
    ImagePermutation(items, items', MediaPath);
    assert MarkdownPaths(files) == Image(files, path) && MarkdownPaths(files') == Image(files', path);
    assert MediaIDs(items) == Image(items, id) && MediaIDs(items') == Image(items', id);
    SortPermutation(MarkdownPaths(files), MarkdownPaths(files'));
    SortPermutation(MediaIDs(items), MediaIDs(items'));
    forall p ensures multiset(PresentPaths(items))[p] == multiset(PresentPaths(items'))[p] {
      PresentPathsCount(items, p);
      PresentPathsCount(items', p);
    }
    assert multiset(PresentPaths(items)) == multiset(PresentPaths(items'));
    SortPermutation(PresentPaths(items), PresentPaths(items'));
  }
}
