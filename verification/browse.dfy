/** The interactive browser (`browseModel` in cmd/browse_tui.go) as a state record
    and a total transition function `Update(env, model, msg)`. Four tabs show the
    markdown files, the media items, the metadata and the preamble report; a media
    image can be opened full screen as Sixel graphics until the next key or click.

    The libraries the browser drives are not modelled: the markdown renderer, image
    decoding and Sixel encoding, JSON formatting, and the list and viewport widgets'
    own key and mouse handling are functions supplied in an `Env`. */
module Browse {
  import opened Results
  import opened Bytes
  import Text
  import opened Header
  import opened Bundle
  import opened ImageScale
  import opened BrowseItems

  /** The tab names, in order. */
  const Tabs: seq<string> := ["Markdown", "Media", "Metadata", "Header"]

  const TabCount: nat := 4

  type TabIndex = t: int | 0 <= t < TabCount

  /** A command handed back to the event loop. */
  datatype Cmd = NoCmd | QuitCmd | WidgetCmd(id: nat)

  datatype MouseButton = WheelUp | WheelDown | LeftButton | OtherButton
  datatype MouseAction = Press | OtherAction

  /** The messages the browser reacts to; a key is named as the event loop names
      it ("q", "ctrl+c", "tab", "shift+tab", ...). */
  datatype Msg =
    | KeyMsg(key: string)
    | MouseMsg(button: MouseButton, action: MouseAction, x: int, y: int)
    | WindowSizeMsg(width: int, height: int)
    | OtherMsg(id: nat)

  /** A list pane: the selected row and the pane's size. */
  datatype ListPane = ListPane(index: int, width: int, height: int)

  /** The scrolling text pane: its content, first visible line and size. */
  datatype Viewport = Viewport(content: string, offset: int, width: int, height: int)

  /** The libraries the browser uses, as functions. */
  datatype Env = Env(
    /** Whether a markdown renderer can be built for a theme and a word-wrap width. */
    buildRenderer: (string, int) -> bool,
    /** Renders markdown at a word-wrap width; `None` when rendering fails. */
    render: (int, string) -> Option<string>,
    /** Indented JSON of the metadata object. */
    formatMetadata: map<string, Json> -> string,
    decodeImage: seq<byte> -> Option<Picture>,
    /** The dimensions of an encoded image, read from its header. */
    decodeConfig: seq<byte> -> Option<(int, int)>,
    encodeSixel: Picture -> Option<string>,
    /** The list widget's own handling of a message (selection moves, paging). */
    listUpdate: (ListPane, Msg) -> (ListPane, Cmd),
    /** The viewport widget's own handling of a message. */
    viewportUpdate: (Viewport, Msg) -> (Viewport, Cmd),
    /** Scrolls the viewport by a number of lines, up when negative. */
    scroll: (Viewport, int) -> Viewport)

  /** `browseModel`. The renderer is represented by the word-wrap width it was built
      with. */
  datatype Model = Model(
    doc: Document,
    header: Option<HeaderInfo>,
    theme: string,
    supportsImages: bool,
    activeTab: TabIndex,
    markdownList: ListPane,
    mediaList: ListPane,
    viewport: Viewport,
    metadataView: string,
    headerView: string,
    width: int,
    height: int,
    listWidth: int,
    contentWidth: int,
    rendererWidth: int,
    viewingImage: bool,
    imageContent: string)

  /** The image view is open exactly when there is an image to show, and only over
      the media tab with an image selected. */
  predicate Inv(m: Model) {
    && (m.viewingImage <==> m.imageContent != "")
    && (m.viewingImage ==>
          m.activeTab == 1 && SelectedMedia(m).Some? && IsImageType(SelectedMedia(m).value.mimeType))
  }

  /** The fields that no message changes. */
  predicate SameDocument(m: Model, m': Model) {
    && m'.doc == m.doc && m'.header == m.header && m'.theme == m.theme
    && m'.supportsImages == m.supportsImages
    && m'.metadataView == m.metadataView && m'.headerView == m.headerView
  }

  // ---------------------------------------------------------------------------
  // Tabs

  /** The tab after `t`, wrapping round. */
  function NextTab(t: TabIndex): TabIndex {
    (t + 1) % TabCount
  }

  /** The tab before `t`, wrapping round: `(t - 1 + 4) % 4`. */
  function PrevTab(t: TabIndex): TabIndex {
    (t - 1 + TabCount) % TabCount
  }

  /** Forward and backward are inverse, four steps go round, and the first tab's
      predecessor is the last. */
  lemma TabCycle(t: TabIndex)
    ensures PrevTab(NextTab(t)) == t && NextTab(PrevTab(t)) == t
    ensures NextTab(NextTab(NextTab(NextTab(t)))) == t
    ensures PrevTab(0) == TabCount - 1
  {
  }

  /** Each tab is drawn with one column of padding on either side. */
  function TabWidth(i: TabIndex): nat {
    |Tabs[i]| + 2
  }

  /** The column where tab `i` starts: the widths of the tabs before it. */
  function TabStart(i: nat): nat
    requires i <= TabCount
  {
    if i == 0 then 0 else TabStart(i - 1) + TabWidth(i - 1)
  }

  /** The tab drawn at column `x` of the tab bar, scanning from tab `i`, which starts
      at column `start`. */
  function HitTabFrom(x: int, i: nat, start: int): Option<TabIndex>
    requires i <= TabCount
    decreases TabCount - i
  {
    if i == TabCount then None
    else if start <= x < start + TabWidth(i) then Some(i)
    else HitTabFrom(x, i + 1, start + TabWidth(i))
  }

  /** The tab under column `x` of the tab bar, if any. */
  function HitTab(x: int): Option<TabIndex> {
    HitTabFrom(x, 0, 0)
  }

  /** A click selects tab `i` exactly when it falls within that tab's columns. */
  lemma HitTabRanges(x: int, i: TabIndex)
    ensures HitTab(x) == Some(i) <==> TabStart(i) <= x < TabStart(i) + TabWidth(i)
  {
    assert TabStart(1) == 10 && TabStart(2) == 17 && TabStart(3) == 27;
  }

  /** Later tabs start at or after the end of earlier ones. */
  lemma {:induction false} TabStartsIncrease(j: nat, i: nat)
    requires j <= i <= TabCount
    ensures TabStart(j) <= TabStart(i)
    decreases i - j
  {
    if j < i {
      TabStartsIncrease(j, i - 1);
    }
  }

  /** The tab bar is 35 columns wide; a click beyond it hits no tab. */
  lemma TabBarWidth(x: int)
    ensures HitTab(x).Some? <==> 0 <= x < TabStart(TabCount)
    ensures TabStart(TabCount) == 35
  {
    assert TabStart(1) == 10 && TabStart(2) == 17 && TabStart(3) == 27;
    if HitTab(x).Some? {
      HitTabRanges(x, HitTab(x).value);
      TabStartsIncrease(HitTab(x).value + 1, TabCount);
    }
  }

  // ---------------------------------------------------------------------------
  // Selection and content

  /** The selected markdown entry, if the list has one at its index. */
  function SelectedMarkdown(m: Model): Option<MarkdownEntry> {
    var i := m.markdownList.index;
    if 0 <= i < |m.doc.markdownFiles| then Some(MarkdownEntryOf(m.doc.markdownFiles[i])) else None
  }

  /** The selected media entry, if the list has one at its index. */
  function SelectedMedia(m: Model): Option<MediaEntry> {
    var i := m.mediaList.index;
    if 0 <= i < |m.doc.mediaItems| then Some(MediaEntryOf(m.doc.mediaItems[i])) else None
  }

  /** The content of the first file with the given path; empty when there is none. */
  function FirstContent(files: seq<MarkdownFile>, path: string): (c: seq<byte>)
    ensures c != [] ==> exists k :: 0 <= k < |files| && files[k].path == path && files[k].content == c
  {
    if |files| == 0 then []
    else if files[0].path == path then files[0].content
    else
      var c := FirstContent(files[1..], path);
      assert c != [] ==> exists k :: 1 <= k < |files| && files[k].path == path && files[k].content == c;
      c
  }

  /** The bytes of a file as text, one character per byte. */
  function AsText(bs: seq<byte>): (s: string)
    ensures |s| == |bs|
  {
    seq(|bs|, k requires 0 <= k < |bs| => (bs[k] as int) as char)
  }

  const EmptyMarkdownText: string := "(empty markdown)"

  /** The markdown pane: the selected file's content, looked up by path, rendered by
      the markdown renderer or shown raw when rendering fails. */
  function RenderMarkdownSelection(env: Env, m: Model): string {
    match SelectedMarkdown(m)
    case None => ""
    case Some(item) =>
      var content := FirstContent(m.doc.markdownFiles, item.path);
      if |content| == 0 then EmptyMarkdownText
      else
        match env.render(m.rendererWidth, AsText(content))
        case None => AsText(content)
        case Some(out) => out
  }

  /** A MIME type names an image when, lower-cased, it starts with "image/". */
  predicate IsImageType(mimeType: string) {
    Text.HasPrefix(Text.ToLower(mimeType), "image/")
  }

  const ViewHint: string := "\nPress 'v' to view image"

  /** The media pane: ID, path and MIME type lines (the last two only when set), the
      size, and for images the dimensions when they can be read and a hint when
      images can be shown. */
  function RenderMediaSelection(env: Env, m: Model): string {
    match SelectedMedia(m)
    case None => ""
    case Some(item) => MediaText(env, m.supportsImages, item)
  }

  function MediaText(env: Env, supportsImages: bool, item: MediaEntry): string {
    IdLine(item) + NameLines(item) + SizeLine(item) + ImageLines(env, supportsImages, item)
  }

  function IdLine(item: MediaEntry): string {
    "ID: " + item.id + "\n"
  }

  function NameLines(item: MediaEntry): string {
    (if item.path != "" then "Path: " + item.path + "\n" else "")
    + (if item.mimeType != "" then "MIME: " + item.mimeType + "\n" else "")
  }

  function SizeLine(item: MediaEntry): string {
    "Size: " + Text.NatToString(item.size) + BytesSuffix + "\n"
  }

  function ImageLines(env: Env, supportsImages: bool, item: MediaEntry): string {
    if !IsImageType(item.mimeType) then ""
    else DimensionsLine(env, item) + (if supportsImages then ViewHint else "")
  }

  function DimensionsLine(env: Env, item: MediaEntry): string {
    match env.decodeConfig(item.data)
    case Some(dims) => "Dimensions: " + Text.IntToString(dims.0) + " x " + Text.IntToString(dims.1) + "\n"
    case None => ""
  }

  /** The text the active tab shows. */
  function TabContent(env: Env, m: Model): string {
    match m.activeTab
    case 0 => RenderMarkdownSelection(env, m)
    case 1 => RenderMediaSelection(env, m)
    case 2 => m.metadataView
    case 3 => m.headerView
  }

  // ---------------------------------------------------------------------------
  // Layout

  /** Sizes the viewport for the active tab once the window size is known: the
      metadata and header tabs use the whole window less a border, the list tabs
      the content column. */
  function ApplyViewportSize(m: Model): (r: Model)
    ensures SameDocument(m, r) && r.activeTab == m.activeTab
    ensures r.viewport.content == m.viewport.content && r.viewport.offset == m.viewport.offset
    ensures m.width == 0 || m.height == 0 ==> r == m
    ensures m.width != 0 && m.height != 0 && m.activeTab >= 2 ==>
      && r.viewport.width >= 20 && r.viewport.width >= m.width - 2
      && (r.viewport.width == 20 || r.viewport.width == m.width - 2)
      && r.viewport.height >= 5 && r.viewport.height >= m.height - 3
      && (r.viewport.height == 5 || r.viewport.height == m.height - 3)
    ensures m.width != 0 && m.height != 0 && m.activeTab < 2 ==>
      r.viewport.width == m.contentWidth && r.viewport.height == m.viewport.height
    ensures r.(viewport := m.viewport) == m
  {
    if m.width == 0 || m.height == 0 then m
    else if m.activeTab >= 2 then
      m.(viewport := m.viewport.(width := Max(20, m.width - 2), height := Max(5, m.height - 3)))
    else m.(viewport := m.viewport.(width := m.contentWidth))
  }

  /** Recomputes the layout for the current window size: a list column of a third of
      the width (at least 24), a one-column gap, and the rest (at least 20) for the
      content; panes are the height less three rows (at least 5). A renderer for the
      new content width replaces the old one when it can be built. Nothing happens
      until the window has a positive size. */
  function Reflow(env: Env, m: Model): (r: Model)
    ensures SameDocument(m, r) && r.activeTab == m.activeTab
    ensures r.viewingImage == m.viewingImage && r.imageContent == m.imageContent
    ensures r.width == m.width && r.height == m.height
    ensures m.width <= 0 || m.height <= 0 ==> r == m
    ensures m.width > 0 && m.height > 0 ==>
      && r.listWidth >= 24 && r.listWidth >= m.width / 3
      && (r.listWidth == 24 || r.listWidth == m.width / 3)
      && r.contentWidth >= 20 && r.listWidth + 1 + r.contentWidth >= m.width
      && (r.contentWidth == 20 || r.listWidth + 1 + r.contentWidth == m.width)
      && (m.width >= 72 ==> r.listWidth + 1 + r.contentWidth == m.width)
      && r.markdownList.height == r.mediaList.height == r.viewport.height
      && r.viewport.height >= 5 && r.viewport.height >= m.height - 3
      && (r.viewport.height == 5 || r.viewport.height == m.height - 3)
      && r.markdownList.width == r.mediaList.width == r.listWidth
      && (m.activeTab < 2 ==> r.viewport.width == r.contentWidth)
    ensures r.markdownList.index == m.markdownList.index && r.mediaList.index == m.mediaList.index
    ensures r.viewport.content == m.viewport.content && r.viewport.offset == m.viewport.offset
    // The renderer is rebuilt for the new content width when that succeeds.
    ensures r.rendererWidth ==
      if m.width > 0 && m.height > 0 && env.buildRenderer(m.theme, r.contentWidth) then r.contentWidth
      else m.rendererWidth
  {
    if m.width <= 0 || m.height <= 0 then m
    else
      var listWidth := Max(24, m.width / 3);
      var contentWidth := Max(20, m.width - listWidth - 1);
      var paneHeight := Max(5, m.height - 3);
      var sized := m.(
        listWidth := listWidth,
        contentWidth := contentWidth,
        markdownList := m.markdownList.(width := listWidth, height := paneHeight),
        mediaList := m.mediaList.(width := listWidth, height := paneHeight),
        viewport := m.viewport.(height := paneHeight));
      var r := ApplyViewportSize(sized);
      if env.buildRenderer(m.theme, contentWidth) then r.(rendererWidth := contentWidth) else r
  }

  /** Resizes the viewport for the active tab, then shows that tab's content from
      the top. */
  function RefreshContent(env: Env, m: Model): (r: Model)
    ensures SameDocument(m, r) && r.activeTab == m.activeTab
    ensures r.viewingImage == m.viewingImage && r.imageContent == m.imageContent
    ensures r.viewport.offset == 0
    ensures r.viewport.content == TabContent(env, m)
    ensures r.markdownList == m.markdownList && r.mediaList == m.mediaList
    ensures r.width == m.width && r.height == m.height
  {
    var sized := ApplyViewportSize(m);
    sized.(viewport := sized.viewport.(content := TabContent(env, m), offset := 0))
  }

  // ---------------------------------------------------------------------------
  // Construction

  datatype StartError = RendererUnavailable

  /** `newBrowseModel`: the first tab selected, the first row of each list, the
      metadata as indented JSON or a placeholder, the preamble report or a
      placeholder, and a renderer 80 columns wide, which must be available. */
  function NewBrowseModel(env: Env, doc: Document, header: Option<HeaderInfo>, theme: string,
                          supportsImages: bool): (r: Result<Model, StartError>)
    ensures r.Success? <==> env.buildRenderer(theme, 80)
    ensures r.Success? ==>
      var m := r.value;
      && m.doc == doc && m.header == header && m.activeTab == 0
      && m.theme == theme && m.supportsImages == supportsImages
      && m.width == 0 && m.height == 0 && m.rendererWidth == 80
      && !m.viewingImage && Inv(m)
      && m.markdownList.index == 0 && m.mediaList.index == 0
      && (doc.metadata.None? ==> m.metadataView == NoMetadataText)
      && (doc.metadata.Some? ==> m.metadataView == env.formatMetadata(doc.metadata.value))
      && (header.None? ==> m.headerView == NoHeaderText)
      && (header.Some? ==> m.headerView == HeaderView(header.value))
      && m.viewport.content == RenderMarkdownSelection(env, m) && m.viewport.offset == 0
  {
    if !env.buildRenderer(theme, 80) then Failure(RendererUnavailable)
    else
      var metadataView := if doc.metadata.None? then NoMetadataText else env.formatMetadata(doc.metadata.value);
      var headerView := if header.None? then NoHeaderText else HeaderView(header.value);
      var m := Model(
        doc := doc, header := header, theme := theme, supportsImages := supportsImages,
        activeTab := 0,
        markdownList := ListPane(0, 0, 0), mediaList := ListPane(0, 0, 0),
        viewport := Viewport("", 0, 0, 0),
        metadataView := metadataView, headerView := headerView,
        width := 0, height := 0, listWidth := 0, contentWidth := 0, rendererWidth := 80,
        viewingImage := false, imageContent := "");
      Success(RefreshContent(env, m))
  }

  // ---------------------------------------------------------------------------
  // Update

  /** Hands a message to the active tab's widget; a list whose selection moved
      refreshes the content pane. */
  function Forward(env: Env, m: Model, msg: Msg): (r: (Model, Cmd))
    ensures SameDocument(m, r.0) && r.0.activeTab == m.activeTab
    ensures r.0.viewingImage == m.viewingImage && r.0.imageContent == m.imageContent
    // The markdown tab: the list widget moves the selection, and a moved selection
    // shows the newly selected file from the top.
    ensures m.activeTab == 0 ==>
      && (r.0.markdownList, r.1) == env.listUpdate(m.markdownList, msg)
      && r.0.mediaList == m.mediaList
      && (r.0.markdownList.index == m.markdownList.index ==> r.0.viewport == m.viewport)
      && (r.0.markdownList.index != m.markdownList.index ==>
            r.0.viewport.offset == 0 && r.0.viewport.content == TabContent(env, m.(markdownList := r.0.markdownList)))
    // The media tab, in the same way.
    ensures m.activeTab == 1 ==>
      && (r.0.mediaList, r.1) == env.listUpdate(m.mediaList, msg)
      && r.0.markdownList == m.markdownList
      && (r.0.mediaList.index == m.mediaList.index ==> r.0.viewport == m.viewport)
      && (r.0.mediaList.index != m.mediaList.index ==>
            r.0.viewport.offset == 0 && r.0.viewport.content == TabContent(env, m.(mediaList := r.0.mediaList)))
    // The metadata and header tabs: the viewport widget handles the message.
    ensures m.activeTab >= 2 ==>
      && r == (m.(viewport := env.viewportUpdate(m.viewport, msg).0), env.viewportUpdate(m.viewport, msg).1)
  {
    match m.activeTab
    case 0 =>
      var (pane, cmd) := env.listUpdate(m.markdownList, msg);
      var moved := m.(markdownList := pane);
      (if pane.index != m.markdownList.index then RefreshContent(env, moved) else moved, cmd)
    case 1 =>
      var (pane, cmd) := env.listUpdate(m.mediaList, msg);
      var moved := m.(mediaList := pane);
      (if pane.index != m.mediaList.index then RefreshContent(env, moved) else moved, cmd)
    case _ =>
      var (vp, cmd) := env.viewportUpdate(m.viewport, msg);
      (m.(viewport := vp), cmd)
  }

  /** The "v" key: on the media tab, with image support, an image selected and the
      image drawn successfully, opens the image view. The drawn text is stored even
      when it is empty. */
  function ViewImage(env: Env, m: Model): (r: (Model, Cmd))
    ensures SameDocument(m, r.0) && r.1 == NoCmd
    ensures Inv(m) && !m.viewingImage ==> Inv(r.0)
  {
    if m.activeTab == 1 && m.supportsImages then
      match SelectedMedia(m)
      case None => (m, NoCmd)
      case Some(item) =>
        if IsImageType(item.mimeType) then
          var content := RenderSixelImage(env.decodeImage, env.encodeSixel, m.width, m.height, item.data);
          var stored := m.(imageContent := content);
          if content != "" then (stored.(viewingImage := true), NoCmd) else (stored, NoCmd)
        else (m, NoCmd)
    else (m, NoCmd)
  }

  /** Selects tab `t` and shows its content. */
  function SelectTab(env: Env, m: Model, t: TabIndex): (r: Model)
    ensures SameDocument(m, r) && r.activeTab == t
    ensures r.viewingImage == m.viewingImage && r.imageContent == m.imageContent
  {
    RefreshContent(env, m.(activeTab := t))
  }

  /** A key while no image is shown. Keys the browser does not handle go to the
      active tab's widget. */
  function HandleKey(env: Env, m: Model, msg: Msg): (r: (Model, Cmd))
    requires msg.KeyMsg?
    ensures SameDocument(m, r.0)
    ensures Inv(m) && !m.viewingImage ==> Inv(r.0)
    ensures msg.key != "v" ==> r.0.viewingImage == m.viewingImage && r.0.imageContent == m.imageContent
  {
    var k := msg.key;
    if k == "ctrl+c" || k == "q" then (m, QuitCmd)
    else if k == "v" then ViewImage(env, m)
    else if k == "tab" || k == "right" then (SelectTab(env, m, NextTab(m.activeTab)), NoCmd)
    else if k == "shift+tab" || k == "left" then (SelectTab(env, m, PrevTab(m.activeTab)), NoCmd)
    else if k == "pgdown" || k == "pgup" || k == "home" || k == "end" then
      var (vp, cmd) := env.viewportUpdate(m.viewport, msg);
      (m.(viewport := vp), cmd)
    else Forward(env, m, msg)
  }

  /** Lines scrolled per wheel notch. */
  const WheelLines: int := 3

  /** A mouse event while no image is shown: the wheel scrolls the viewport, a left
      press on the first row selects the tab under it, anything else goes to the
      active tab's widget. */
  function HandleMouse(env: Env, m: Model, msg: Msg): (r: (Model, Cmd))
    requires msg.MouseMsg?
    ensures SameDocument(m, r.0)
    ensures r.0.viewingImage == m.viewingImage && r.0.imageContent == m.imageContent
  {
    if msg.button == WheelUp then (m.(viewport := env.scroll(m.viewport, -WheelLines)), NoCmd)
    else if msg.button == WheelDown then (m.(viewport := env.scroll(m.viewport, WheelLines)), NoCmd)
    else if msg.action == Press && msg.button == LeftButton && msg.y == 0 && HitTab(msg.x).Some? then
      var t := HitTab(msg.x).value;
      if m.activeTab != t then (SelectTab(env, m, t), NoCmd) else (m, NoCmd)
    else Forward(env, m, msg)
  }

  /** `browseModel.Update`. While an image is shown, a key or a mouse event closes it
      and every other message is ignored. */
  function Update(env: Env, m: Model, msg: Msg): (r: (Model, Cmd))
    ensures SameDocument(m, r.0)
    ensures Inv(m) ==> Inv(r.0)
    ensures m.viewingImage && (msg.KeyMsg? || msg.MouseMsg?) ==>
      r == (m.(viewingImage := false, imageContent := ""), NoCmd)
    ensures m.viewingImage && !(msg.KeyMsg? || msg.MouseMsg?) ==> r == (m, NoCmd)
    ensures !m.viewingImage && (msg == KeyMsg("q") || msg == KeyMsg("ctrl+c")) ==> r == (m, QuitCmd)
    // Only the "v" key opens the image view.
    ensures !m.viewingImage && msg != KeyMsg("v") ==> !r.0.viewingImage
  {
    if m.viewingImage then
      if msg.KeyMsg? || msg.MouseMsg? then (m.(viewingImage := false, imageContent := ""), NoCmd)
      else (m, NoCmd)
    else
      match msg
      case KeyMsg(_) => HandleKey(env, m, msg)
      case MouseMsg(_, _, _, _) => HandleMouse(env, m, msg)
      case WindowSizeMsg(w, h) => (RefreshContent(env, Reflow(env, m.(width := w, height := h))), NoCmd)
      case OtherMsg(_) => Forward(env, m, msg)
  }

  // ---------------------------------------------------------------------------
  // Properties

  /** The drawn image for the selected media item at the current window size. */
  function SelectedImage(env: Env, m: Model): string
    requires SelectedMedia(m).Some?
  {
    RenderSixelImage(env.decodeImage, env.encodeSixel, m.width, m.height, SelectedMedia(m).value.data)
  }

  /** The "v" key opens the image view exactly when the media tab is active, images
      can be shown, the selected item has an image MIME type and it draws to
      something; the view then holds the drawing. Otherwise nothing changes. */
  lemma ViewKeyOpensImage(env: Env, m: Model)
    requires Inv(m) && !m.viewingImage
    ensures var r := Update(env, m, KeyMsg("v"));
      var opens := && m.activeTab == 1 && m.supportsImages && SelectedMedia(m).Some?
                   && IsImageType(SelectedMedia(m).value.mimeType) && SelectedImage(env, m) != "";
      && r.1 == NoCmd
      && (r.0.viewingImage <==> opens)
      && (opens ==> r.0 == m.(viewingImage := true, imageContent := SelectedImage(env, m)))
      && (!opens ==> r.0 == m)
  {
  }

  /** While an image is shown any key or click closes it, leaving the rest of the
      browser as it was, and other messages (a resize among them) change nothing. */
  lemma ImageViewIsModal(env: Env, m: Model, msg: Msg)
    requires Inv(m) && m.viewingImage
    ensures var r := Update(env, m, msg);
      && r.1 == NoCmd
      && (msg.KeyMsg? || msg.MouseMsg? ==> !r.0.viewingImage && r.0.(viewingImage := true, imageContent := m.imageContent) == m)
      && (!(msg.KeyMsg? || msg.MouseMsg?) ==> r.0 == m)
  {
  }

  /** "tab" and "right" select the next tab and show its content from the top. */
  lemma NextTabKeys(env: Env, m: Model, key: string)
    requires !m.viewingImage && (key == "tab" || key == "right")
    ensures Update(env, m, KeyMsg(key)) == (SelectTab(env, m, NextTab(m.activeTab)), NoCmd)
    ensures Update(env, m, KeyMsg(key)).0.viewport.content == TabContent(env, Update(env, m, KeyMsg(key)).0)
  {
    TabContentOf(env, m.(activeTab := NextTab(m.activeTab)), SelectTab(env, m, NextTab(m.activeTab)));
  }

  /** "shift+tab" and "left" select the previous tab and show its content from the
      top. */
  lemma PrevTabKeys(env: Env, m: Model, key: string)
    requires !m.viewingImage && (key == "shift+tab" || key == "left")
    ensures Update(env, m, KeyMsg(key)) == (SelectTab(env, m, PrevTab(m.activeTab)), NoCmd)
    ensures Update(env, m, KeyMsg(key)).0.viewport.content == TabContent(env, Update(env, m, KeyMsg(key)).0)
  {
    TabContentOf(env, m.(activeTab := PrevTab(m.activeTab)), SelectTab(env, m, PrevTab(m.activeTab)));
  }

  /** "tab" followed by "shift+tab" comes back to the same tab, showing what that
      tab shows after a refresh; four presses of "tab" go round. */
  lemma TabRoundTrip(env: Env, m: Model)
    requires !m.viewingImage
    ensures var there := Update(env, m, KeyMsg("tab")).0;
      var back := Update(env, there, KeyMsg("shift+tab")).0;
      && back.activeTab == m.activeTab
      && back.viewport.content == TabContent(env, RefreshContent(env, m))
    ensures var m1 := Update(env, m, KeyMsg("tab")).0;
      var m2 := Update(env, m1, KeyMsg("tab")).0;
      var m3 := Update(env, m2, KeyMsg("tab")).0;
      Update(env, m3, KeyMsg("tab")).0.activeTab == m.activeTab
  {
    TabCycle(m.activeTab);
    NextTabKeys(env, m, "tab");
    var there := Update(env, m, KeyMsg("tab")).0;
    PrevTabKeys(env, there, "shift+tab");
    var back := Update(env, there, KeyMsg("shift+tab")).0;
    TabContentOf(env, back, RefreshContent(env, m));
    var m1 := there;
    NextTabKeys(env, m1, "tab");
    var m2 := Update(env, m1, KeyMsg("tab")).0;
    NextTabKeys(env, m2, "tab");
    var m3 := Update(env, m2, KeyMsg("tab")).0;
    NextTabKeys(env, m3, "tab");
  }

  /** What a tab shows depends only on the document, the selections, the renderer
      width, the image support, the window size and the two fixed views. */
  lemma TabContentOf(env: Env, a: Model, b: Model)
    requires SameDocument(a, b) && a.activeTab == b.activeTab
    requires a.markdownList == b.markdownList && a.mediaList == b.mediaList
    requires a.rendererWidth == b.rendererWidth
    ensures TabContent(env, a) == TabContent(env, b)
  {
    assert SelectedMarkdown(a) == SelectedMarkdown(b);
    assert SelectedMedia(a) == SelectedMedia(b);
    assert a.doc.markdownFiles == b.doc.markdownFiles;
  }

  /** A left click on the tab bar's row over the active tab changes nothing; over
      another tab it selects that tab. */
  lemma ClickOnTab(env: Env, m: Model, x: int, t: TabIndex)
    requires !m.viewingImage
    requires TabStart(t) <= x < TabStart(t) + TabWidth(t)
    ensures var r := Update(env, m, MouseMsg(LeftButton, Press, x, 0));
      && r.1 == NoCmd
      && (t == m.activeTab ==> r.0 == m)
      && (t != m.activeTab ==> r.0 == SelectTab(env, m, t))
  {
    HitTabRanges(x, t);
  }

  /** A left click on the tab bar's row beyond the last tab, or below the tab bar,
      goes to the active tab's widget. */
  lemma ClickPastTabs(env: Env, m: Model, x: int, y: int)
    requires !m.viewingImage
    requires x >= 35 || x < 0 || y != 0
    ensures Update(env, m, MouseMsg(LeftButton, Press, x, y)) == Forward(env, m, MouseMsg(LeftButton, Press, x, y))
  {
    TabBarWidth(x);
  }

  /** The mouse wheel scrolls the viewport three lines per notch. */
  lemma WheelScrolls(env: Env, m: Model, action: MouseAction, x: int, y: int)
    requires !m.viewingImage
    ensures Update(env, m, MouseMsg(WheelUp, action, x, y)) == (m.(viewport := env.scroll(m.viewport, -3)), NoCmd)
    ensures Update(env, m, MouseMsg(WheelDown, action, x, y)) == (m.(viewport := env.scroll(m.viewport, 3)), NoCmd)
  {
  }

  /** A second layout pass for the same window size changes nothing. */
  lemma ReflowIdempotent(env: Env, m: Model)
    ensures Reflow(env, Reflow(env, m)) == Reflow(env, m)
  {
  }

  /** A resize records the new size, lays the panes out for it and shows the active
      tab's content from the top; a size with an empty side only records it. */
  lemma ResizeLaysOut(env: Env, m: Model, w: int, h: int)
    requires !m.viewingImage
    ensures var r := Update(env, m, WindowSizeMsg(w, h));
      var sized := m.(width := w, height := h);
      && r.1 == NoCmd
      && r.0.width == w && r.0.height == h
      && r.0 == RefreshContent(env, Reflow(env, sized))
      && r.0.viewport.offset == 0
      && (w <= 0 || h <= 0 ==> r.0.listWidth == m.listWidth && r.0.contentWidth == m.contentWidth)
      && (w > 0 && h > 0 ==> r.0.listWidth == Max(24, w / 3) && r.0.contentWidth == Max(20, w - Max(24, w / 3) - 1))
  {
  }

  /** Several files with the same path show the first one's content, whichever of
      them is selected. */
  lemma {:induction false} FirstContentIsFirst(files: seq<MarkdownFile>, j: nat)
    requires j < |files|
    requires forall k :: 0 <= k < j ==> files[k].path != files[j].path
    ensures FirstContent(files, files[j].path) == files[j].content
  {
    if j > 0 {
      FirstContentIsFirst(files[1..], j - 1);
    }
  }

  /** The markdown tab shows the selected path's first file, rendered; a failed
      rendering shows it raw, and an empty one a placeholder. */
  lemma MarkdownPane(env: Env, m: Model, j: nat)
    requires 0 <= m.markdownList.index < |m.doc.markdownFiles|
    requires j <= m.markdownList.index && m.doc.markdownFiles[j].path == m.doc.markdownFiles[m.markdownList.index].path
    requires forall k :: 0 <= k < j ==> m.doc.markdownFiles[k].path != m.doc.markdownFiles[j].path
    ensures var content := m.doc.markdownFiles[j].content;
      var shown := RenderMarkdownSelection(env, m);
      && (content == [] ==> shown == EmptyMarkdownText)
      && (content != [] && env.render(m.rendererWidth, AsText(content)).None? ==> shown == AsText(content))
      && (content != [] && env.render(m.rendererWidth, AsText(content)).Some? ==>
            shown == env.render(m.rendererWidth, AsText(content)).value)
  {
    FirstContentIsFirst(m.doc.markdownFiles, j);
  }

  /** `s` ends with `suffix`. */
  predicate EndsWith(s: string, suffix: string) {
    |s| >= |suffix| && s[|s| - |suffix|..] == suffix
  }

  lemma ConcatEnds(a: string, b: string)
    ensures EndsWith(a + b, b) && Text.HasPrefix(a + b, a)
  {
    assert (a + b)[|a|..] == b && (a + b)[..|a|] == a;
  }

  /** The media tab starts with the selected item's ID line. An image ends with the
      hint to press "v" when images can be shown; any other item ends with its size
      line. With nothing selected the pane is empty. */
  lemma MediaPane(env: Env, m: Model)
    ensures SelectedMedia(m).None? ==> RenderMediaSelection(env, m) == ""
    ensures SelectedMedia(m).Some? ==>
      var item := SelectedMedia(m).value;
      var shown := RenderMediaSelection(env, m);
      && Text.HasPrefix(shown, "ID: " + item.id + "\n")
      && (IsImageType(item.mimeType) && m.supportsImages ==> EndsWith(shown, ViewHint))
      && (!IsImageType(item.mimeType) ==> EndsWith(shown, "Size: " + Text.NatToString(item.size) + " bytes\n"))
  {
    if SelectedMedia(m).Some? {
      var item := SelectedMedia(m).value;
      MediaTextStart(env, m.supportsImages, item);
      MediaTextEnd(env, m.supportsImages, item);
    }
  }

  lemma MediaTextStart(env: Env, supportsImages: bool, item: MediaEntry)
    ensures Text.HasPrefix(MediaText(env, supportsImages, item), IdLine(item))
  {
    var body := NameLines(item) + SizeLine(item) + ImageLines(env, supportsImages, item);
    assert MediaText(env, supportsImages, item) == IdLine(item) + body;
    ConcatEnds(IdLine(item), body);
  }

  lemma MediaTextEnd(env: Env, supportsImages: bool, item: MediaEntry)
    ensures IsImageType(item.mimeType) && supportsImages ==> EndsWith(MediaText(env, supportsImages, item), ViewHint)
    ensures !IsImageType(item.mimeType) ==> EndsWith(MediaText(env, supportsImages, item), SizeLine(item))
  {
    var lead := IdLine(item) + NameLines(item) + SizeLine(item);
    if IsImageType(item.mimeType) && supportsImages {
      assert MediaText(env, supportsImages, item) == (lead + DimensionsLine(env, item)) + ViewHint;
      ConcatEnds(lead + DimensionsLine(env, item), ViewHint);
    }
    if !IsImageType(item.mimeType) {
      assert MediaText(env, supportsImages, item) == (IdLine(item) + NameLines(item)) + SizeLine(item);
      ConcatEnds(IdLine(item) + NameLines(item), SizeLine(item));
    }
  }
}
