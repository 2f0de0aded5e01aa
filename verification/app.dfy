/**
  The application shell (`App`): it owns the configuration, the uploaded
  file, the page count, the current page and the ready flag, and hands them
  to the stage and the toolbar. Its handlers are pure updates of that state.
 */
module App {
  import opened Wrappers
  import opened Types
  import Stage
  import Toolbar
  import Text

  datatype AppState = AppState(
    config: Config,
    file: Option<File>,
    totalPages: int,
    currentPage: int,
    isReady: bool)

  /** Default configuration, no file, no pages, page 0, not ready. */
  function InitialApp(): (a: AppState)
    ensures a.config == DefaultConfig && a.config.flipSpeed == 1000 && a.config.shadowIntensity == 32
    ensures a.config.isHardCover && a.config.useSound && a.config.scale == 1.0
    ensures a.file.None? && a.totalPages == 0 && a.currentPage == 0 && !a.isReady
  {
    AppState(DefaultConfig, None, 0, 0, false)
  }

  /** `handleUpload`: the file is replaced, the page goes back to 0 and the app is not ready. */
  function Upload(a: AppState, f: File): (a': AppState)
    ensures a'.file == Some(f) && a'.currentPage == 0 && !a'.isReady
    ensures a'.totalPages == a.totalPages && a'.config == a.config
  {
    a.(file := Some(f), currentPage := 0, isReady := false)
  }

  /** `handlePageChange`: the reported page is stored as it is, and nothing else changes. */
  function PageChange(a: AppState, page: int): (a': AppState)
    ensures a'.currentPage == page
    ensures a'.(currentPage := a.currentPage) == a
  {
    a.(currentPage := page)
  }

  /** `handleDocumentLoadSuccess`: the page count is stored and the app is ready. */
  function DocumentLoadSuccess(a: AppState, numPages: int): (a': AppState)
    ensures a'.totalPages == numPages && a'.isReady
    ensures a'.config == a.config && a'.file == a.file && a'.currentPage == a.currentPage
  {
    a.(totalPages := numPages, isReady := true)
  }

  /** `setConfig` as the toolbar calls it. */
  function SetConfig(a: AppState, c: Config): (a': AppState)
    ensures a'.config == c && a'.(config := a.config) == a
  {
    a.(config := c)
  }

  datatype AppEvent = Uploaded(f: File) | PageChanged(page: int) | Loaded(numPages: int) | ConfigSet(c: Config)

  function Apply(a: AppState, e: AppEvent): AppState {
    match e
    case Uploaded(f) => Upload(a, f)
    case PageChanged(p) => PageChange(a, p)
    case Loaded(n) => DocumentLoadSuccess(a, n)
    case ConfigSet(c) => SetConfig(a, c)
  }

  function ApplyAll(a: AppState, events: seq<AppEvent>): AppState
    decreases |events|
  {
    if |events| == 0 then a else ApplyAll(Apply(a, events[0]), events[1..])
  }

  /** Repeated page changes: the last one wins. */
  lemma PageChangeLastWins(a: AppState, p: int, q: int)
    ensures PageChange(PageChange(a, p), q) == PageChange(a, q)
  {
  }

  predicate IsConfigSet(e: AppEvent) {
    e.ConfigSet?
  }

  /** Only the toolbar's `setConfig` changes the configuration: uploads, loads and page changes leave it alone. */
  lemma {:induction false} ConfigOnlyBySetConfig(a: AppState, events: seq<AppEvent>)
    requires forall i :: 0 <= i < |events| ==> !IsConfigSet(events[i])
    ensures ApplyAll(a, events).config == a.config
    decreases |events|
  {
    if |events| > 0 {
      ConfigOnlyBySetConfig(Apply(a, events[0]), events[1..]);
    }
  }

  predicate IsUpload(e: AppEvent) {
    e.Uploaded?
  }

  /** Only an upload changes the file: once chosen, a file stays until the next upload. */
  lemma {:induction false} FileOnlyByUpload(a: AppState, events: seq<AppEvent>)
    requires forall i :: 0 <= i < |events| ==> !IsUpload(events[i])
    ensures ApplyAll(a, events).file == a.file
    decreases |events|
  {
    if |events| > 0 {
      FileOnlyByUpload(Apply(a, events[0]), events[1..]);
    }
  }

  /** The stage's props for the app state: a file is present exactly when one was uploaded. */
  function StageProps(a: AppState, bookMounted: bool, audioReady: bool): (p: Stage.Props)
    ensures p.hasFile <==> a.file.Some?
    ensures p.config == a.config && p.currentPage == a.currentPage && p.totalPages == a.totalPages
  {
    Stage.Props(a.file.Some?, a.config, a.currentPage, a.totalPages, bookMounted, audioReady, false)
  }

  /**
    Right after a new document of at least two pages has loaded, the reader
    sits on page 0: "previous" is disabled, "next" is enabled, the counter
    shows the page and the last index, and the book is shifted left by half a
    page so that only its right-hand page is centred.
   */
  lemma FreshDocumentOpensAtFirstPage(a: AppState, f: File, numPages: int, d: Stage.Dims)
    requires numPages >= 2
    ensures var a' := DocumentLoadSuccess(Upload(a, f), numPages);
      && a'.currentPage == 0 && a'.isReady
      && Stage.PrevDisabled(a'.file.Some?, a'.currentPage)
      && !Stage.NextDisabled(a'.file.Some?, a'.currentPage, a'.totalPages)
      && Stage.Counter(a'.currentPage, a'.totalPages) == "00 / " + Text.PadInt2(numPages - 1)
      && 2.0 * Stage.ShiftX(Some(d), a'.currentPage, a'.totalPages) == -(d.width as real)
  {
  }

  /**
    The three ways to pick a file (dropping it on the stage, the stage's file
    picker, the toolbar's file picker) forward the same file under the same
    condition: the first file, when its type is `application/pdf`.
   */
  lemma UploadEntryPointsAgree(s: Stage.StageState, t: Toolbar.ToolbarState, files: seq<File>)
    ensures Stage.OnDrop(s, files).effects == Stage.OnFileSelect(files)
    ensures |Stage.OnFileSelect(files)| == 1 <==> Toolbar.OnFileChange(t, files).1.Some?
    ensures Toolbar.OnFileChange(t, files).1.Some? ==>
      Stage.OnFileSelect(files) == [Stage.Upload(Toolbar.OnFileChange(t, files).1.value)]
  {
  }

  // ---- the toolbar's props ----

  /**
    The toolbar's props as the app passes them: the configuration, the file's
    name and size, and no `pdfFile`.
   */
  function ToolbarPropsAsWritten(a: AppState): (p: Toolbar.ToolbarProps)
    ensures p.config == a.config
    ensures p.pdfName == (if a.file.Some? then Some(a.file.value.name) else None)
    ensures p.pdfSize == (if a.file.Some? then Some(a.file.value.size) else None)
    ensures p.pdfFile.None?
  {
    match a.file
    case Some(f) => Toolbar.ToolbarProps(a.config, Some(f.name), Some(f.size), None)
    case None => Toolbar.ToolbarProps(a.config, None, None, None)
  }

  /**
    As the app is written, "generate" can never start: the toolbar's guard
    needs a file it is never given, even when a named file is loaded and the
    button is enabled.
   */
  lemma GenerateNeverStartsAsWritten(a: AppState, t: Toolbar.ToolbarState)
    ensures Toolbar.GenerateStart(t, ToolbarPropsAsWritten(a)) == (t, None)
  {
  }

  /** The enabled-but-inert button: a loaded file with a non-empty name and nothing generating. */
  lemma GenerateEnabledButInert(a: AppState, t: Toolbar.ToolbarState)
    requires a.file.Some? && a.file.value.name != "" && !t.isGenerating
    ensures !Toolbar.GenerateDisabled(ToolbarPropsAsWritten(a).pdfName, t.isGenerating)
    ensures !Toolbar.GenerateStart(t, ToolbarPropsAsWritten(a)).0.isGenerating
  {
  }

  /** The toolbar's props with the uploaded file passed through as `pdfFile`. */
  function ToolbarPropsOf(a: AppState): (p: Toolbar.ToolbarProps)
    ensures p.config == a.config
    ensures p.pdfName == (if a.file.Some? then Some(a.file.value.name) else None)
    ensures p.pdfSize == (if a.file.Some? then Some(a.file.value.size) else None)
    ensures p.pdfFile == a.file
  {
    match a.file
    case Some(f) => Toolbar.ToolbarProps(a.config, Some(f.name), Some(f.size), Some(f))
    case None => Toolbar.ToolbarProps(a.config, None, None, None)
  }

  /**
    With the file passed through, "generate" starts exactly when its button
    is enabled, and the file it sends is the uploaded one.
   */
  lemma GenerateStartsWhenEnabled(a: AppState, t: Toolbar.ToolbarState)
    ensures var r := Toolbar.GenerateStart(t, ToolbarPropsOf(a));
      && (!Toolbar.GenerateDisabled(ToolbarPropsOf(a).pdfName, false) <==> r.1.Some?)
      && (r.1.Some? ==> r.1 == a.file && r.0.isGenerating)
  {
  }

  /**
    A share link needs both corrections. With the props as written nothing is
    uploaded; with the file passed but `uploadPDF` still called without the
    configuration, even a working backend ends in the failure alert; with
    both, a working backend yields the copied share URL.
   */
  lemma ShareNeedsBothFixes(a: AppState, t: Toolbar.ToolbarState, b: Toolbar.Backend, origin: string)
    requires a.file.Some? && a.file.value.name != ""
    requires b.storageOk && b.insertOk
    ensures Toolbar.GenerateAsWritten(t, ToolbarPropsAsWritten(a), b, origin).upload.None?
    ensures Toolbar.GenerateAsWritten(t, ToolbarPropsOf(a), b, origin).effects == [Toolbar.Alert(Toolbar.UploadFailedMessage)]
    ensures Toolbar.Generate(t, ToolbarPropsOf(a), b, origin).next.hasCopied
    ensures Toolbar.Generate(t, ToolbarPropsOf(a), b, origin).next.deployUrl == Toolbar.ShareUrl(origin, b.id)
  {
  }
}
