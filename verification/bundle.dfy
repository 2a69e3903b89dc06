/** The decoded document handed to the tool by the external container codec
    (`mdocx.Document`). Only the fields the tool reads are kept. */
module Bundle {
  import opened Results
  import opened Bytes

  /** A metadata value: the decoder yields arbitrary JSON under each key. */
  datatype Json =
    | JNull
    | JBool(b: bool)
    | JNumber(literal: string)
    | JString(s: string)
    | JArray(elements: seq<Json>)
    | JObject(fields: map<string, Json>)

  datatype MarkdownFile = MarkdownFile(path: string, content: seq<byte>)

  /** A media asset; an empty `path` means the asset has no container path. */
  datatype MediaItem = MediaItem(id: string, path: string, mimeType: string, data: seq<byte>)

  /** `metadata` is `None` when the document carries no metadata object (a nil map). */
  datatype Document = Document(
    metadata: Option<map<string, Json>>,
    markdownBundleVersion: u16,
    markdownFiles: seq<MarkdownFile>,
    mediaBundleVersion: u16,
    mediaItems: seq<MediaItem>)

  /** The markdown paths in document order. */
  function MarkdownPaths(files: seq<MarkdownFile>): (r: seq<string>)
    ensures |r| == |files|
    ensures forall k :: 0 <= k < |files| ==> r[k] == files[k].path
  {
    seq(|files|, k requires 0 <= k < |files| => files[k].path)
  }

  /** The media IDs in document order. */
  function MediaIDs(items: seq<MediaItem>): (r: seq<string>)
    ensures |r| == |items|
    ensures forall k :: 0 <= k < |items| ==> r[k] == items[k].id
  {
    seq(|items|, k requires 0 <= k < |items| => items[k].id)
  }
}
