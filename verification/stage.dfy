/**
  The stage that shows the book (`Stage`).

  Modelled here: the book dimensions computed from page 1 of the PDF, the
  fit-to-viewport scale, the prev/next navigation guarded by `isFlipping`
  and released by the timer armed in the renderer's flip callback, the sound
  gate, the PDF filter on dropped and selected files, the reset on file
  change, and the expressions of the controls: the horizontal shift of the
  book, the disabled state of the buttons and the page counter. The PDF
  decoder and the page-flip renderer are outside; what they report arrives
  as events, and what the stage asks of them leaves as effects.
 */
module Stage {
  import opened Wrappers
  import opened Types
  import Text
  import FlipBook

  /** Every book is normalised to this height; the width follows the aspect ratio. */
  const BaseHeight: int := 600
  const HorizontalPadding: real := 40.0
  const PaddingWithFile: real := 320.0
  const PaddingWithoutFile: real := 120.0
  const MinScale: real := 0.2
  const MaxScale: real := 1.2
  const LoadFailureMessage := "Failed to process PDF structure"
  const DefaultLoadError := "Failed to load PDF"

  datatype Dims = Dims(width: int, height: int)

  /** A viewport size: page 1 of the PDF at scale 1, or the browser window. */
  datatype Size = Size(width: real, height: real)

  /** Height 600 and the width that keeps page 1's aspect ratio, rounded down. */
  function BookDimensions(page1: Size): (d: Dims)
    requires page1.height > 0.0
    ensures d.height == BaseHeight
    ensures d.width as real * page1.height <= 600.0 * page1.width < (d.width + 1) as real * page1.height
  {
    var q := 600.0 * (page1.width / page1.height);
    ScaledRatio(page1.width, page1.height);
    FloorTimes(q, page1.height, 600.0 * page1.width);
    Dims(q.Floor, BaseHeight)
  }

  /** `600 * (w / h)` multiplied back by `h` is `600 * w`. */
  lemma ScaledRatio(w: real, h: real)
    requires h > 0.0
    ensures 600.0 * (w / h) * h == 600.0 * w
  {
    assert (w / h) * h == w;
  }

  /** Rounding `q` down and multiplying by a positive `h` brackets `v = q * h`. */
  lemma FloorTimes(q: real, h: real, v: real)
    requires h > 0.0 && q * h == v
    ensures q.Floor as real * h <= v < (q.Floor + 1) as real * h
  {
    MultiplyBelow(q.Floor as real, q, h);
    MultiplyBelow(q, (q.Floor + 1) as real, h);
  }

  lemma MultiplyBelow(x: real, y: real, h: real)
    requires h > 0.0 && x <= y
    ensures x * h <= y * h
    ensures x < y ==> x * h < y * h
  {
  }

  function Min(a: real, b: real): real {
    if a < b then a else b
  }

  /**
    A JavaScript number as far as the fit needs it: a finite value, one of
    the two infinities, or NaN.
   */
  datatype Num = Finite(value: real) | PosInf | NegInf | NaN

  /** JavaScript `/` on finite operands: a zero divisor gives ±Infinity, or NaN for `0 / 0`. */
  function Divide(a: real, b: real): (q: Num)
    ensures q.Finite? <==> b != 0.0
    ensures q.Finite? ==> q.value * b == a
    ensures q.NaN? <==> b == 0.0 && a == 0.0
    ensures q == PosInf <==> b == 0.0 && a > 0.0
  {
    if b != 0.0 then Finite(a / b)
    else if a > 0.0 then PosInf
    else if a < 0.0 then NegInf
    else NaN
  }

  /** `Math.min(x, y)` with `y` finite: NaN wins, +Infinity loses and -Infinity wins. */
  function MinFinite(x: Num, y: real): (m: Num)
    ensures m.NaN? <==> x.NaN?
    ensures x.Finite? ==> m == Finite(Min(x.value, y))
    ensures x == PosInf ==> m == Finite(y)
    ensures x == NegInf ==> m == NegInf
  {
    match x
    case Finite(v) => Finite(Min(v, y))
    case PosInf => Finite(y)
    case NegInf => NegInf
    case NaN => NaN
  }

  /**
    The two `if`s after the minimum: above 1.2 becomes 1.2, below 0.2
    becomes 0.2; NaN fails both comparisons and stays NaN.
   */
  function ClampScale(n: Num): (c: Num)
    ensures c.NaN? <==> n.NaN?
    ensures !c.NaN? ==> c.Finite? && MinScale <= c.value <= MaxScale
    ensures n.Finite? && MinScale <= n.value <= MaxScale ==> c == n
  {
    match n
    case NaN => NaN
    case PosInf => Finite(MaxScale)
    case NegInf => Finite(MinScale)
    case Finite(v) =>
      var capped := if v > MaxScale then MaxScale else v;
      Finite(if capped < MinScale then MinScale else capped)
  }

  /**
    `handleResize`: the scale at which the two-page footprint (2 × width by
    height) fits the window less its padding, capped at 1.2 and floored at 0.2.
    A book of width 0 (a page narrower than 1/600 of its height) divides by
    zero: the width ratio is +Infinity and the height alone decides, unless
    the window is exactly the padding wide, where `0 / 0` makes the scale NaN.
   */
  function FitScale(window: Size, book: Dims, hasFile: bool): (s: Num)
    requires book.height > 0
    ensures book.width >= 0 ==> (s.NaN? <==> book.width == 0 && window.width == HorizontalPadding)
    ensures !s.NaN? ==> s.Finite? && MinScale <= s.value <= MaxScale
    ensures book.width >= 0 && s.Finite? && s.value > MinScale ==> BookFits(s.value, window, book, hasFile)
    ensures book.width >= 0 && s.Finite? ==>
      forall t: real :: MinScale <= t <= MaxScale && BookFits(t, window, book, hasFile) ==> t <= s.value
  {
    var fullWidth := (book.width * 2) as real;
    var fullHeight := book.height as real;
    var verticalPadding := if hasFile then PaddingWithFile else PaddingWithoutFile;
    var availW := window.width - HorizontalPadding;
    var availH := window.height - verticalPadding;
    var scaleY := availH / fullHeight;
    var fit := MinFinite(Divide(availW, fullWidth), scaleY);
    if book.width > 0 then
      FitIsLargest(availW, fullWidth, availH, fullHeight, fit.value);
      ClampScale(fit)
    else if book.width == 0 && availW > 0.0 then
      HeightAloneDecides(availW, availH, fullHeight, scaleY);
      ClampScale(fit)
    else
      ClampScale(fit)
  }

  /**
    With a footprint of width 0 and room across, only the height constrains:
    the height ratio fits, and every fitting scale is at most it.
   */
  lemma HeightAloneDecides(availW: real, availH: real, fullH: real, sy: real)
    requires availW > 0.0 && fullH > 0.0 && sy == availH / fullH
    ensures Fits(sy, 0.0, availW, fullH, availH)
    ensures forall t: real :: Fits(t, 0.0, availW, fullH, availH) ==> t <= sy
  {
    assert sy * fullH == availH;
    forall t: real | Fits(t, 0.0, availW, fullH, availH)
      ensures t <= sy
    {
      if t > sy {
        MultiplyBelow(sy, t, fullH);
      }
    }
  }

  /**
    A page narrower than 1/600 of its height gets a book of width 0; the
    resize then fits by height alone (680/600 in a 1000 px window with a
    file), and a window exactly 40 px wide gives NaN.
   */
  lemma NarrowPageFitsByHeight()
    ensures BookDimensions(Size(1.0, 601.0)).width == 0
    ensures FitScale(Size(1000.0, 1000.0), Dims(0, BaseHeight), true) == Finite(680.0 / 600.0)
    ensures FitScale(Size(HorizontalPadding, 1000.0), Dims(0, BaseHeight), true).NaN?
  {
    var d := BookDimensions(Size(1.0, 601.0));
    if d.width < 0 {
      MultiplyBelow((d.width + 1) as real, 0.0, 601.0);
    } else if d.width > 0 {
      MultiplyBelow(1.0, d.width as real, 601.0);
    }
  }

  /**
    The two-page footprint scaled by `t` fits the window less 40 px across
    and less the vertical padding (320 px with a file, 120 px without).
   */
  predicate BookFits(t: real, window: Size, book: Dims, hasFile: bool) {
    Fits(t, (2 * book.width) as real, window.width - HorizontalPadding,
         book.height as real, window.height - (if hasFile then PaddingWithFile else PaddingWithoutFile))
  }

  /** A footprint of `fullW` by `fullH` scaled by `t` fits into `availW` by `availH`. */
  predicate Fits(t: real, fullW: real, availW: real, fullH: real, availH: real) {
    t * fullW <= availW && t * fullH <= availH
  }

  /** The smaller of the two ratios is the largest scale under which both sides fit. */
  lemma FitIsLargest(availW: real, fullW: real, availH: real, fullH: real, fit: real)
    requires fullW > 0.0 && fullH > 0.0
    requires fit == Min(availW / fullW, availH / fullH)
    ensures Fits(fit, fullW, availW, fullH, availH)
    ensures forall t: real :: Fits(t, fullW, availW, fullH, availH) ==> t <= fit
  {
    var sx, sy := availW / fullW, availH / fullH;
    assert sx * fullW == availW && sy * fullH == availH;
    MultiplyBelow(fit, sx, fullW);
    MultiplyBelow(fit, sy, fullH);
    forall t: real | Fits(t, fullW, availW, fullH, availH)
      ensures t <= fit
    {
      if t > sx {
        MultiplyBelow(sx, t, fullW);
      }
      if t > sy {
        MultiplyBelow(sy, t, fullH);
      }
    }
  }

  /**
    `translateX` of the book: shifted left by half a page on page 0 (only the
    right-hand page is showing), right by half a page on the last page, and
    centred otherwise; no shift before the dimensions are known.
   */
  function ShiftX(dims: Option<Dims>, currentPage: int, totalPages: int): (x: real)
    ensures dims.None? ==> x == 0.0
    ensures dims.Some? && currentPage == 0 ==> 2.0 * x == -(dims.value.width as real)
    ensures dims.Some? && currentPage != 0 && currentPage == totalPages - 1 ==> 2.0 * x == dims.value.width as real
    ensures currentPage != 0 && currentPage != totalPages - 1 ==> x == 0.0
  {
    match dims
    case None => 0.0
    case Some(d) =>
      if currentPage == 0 then -(d.width as real / 2.0)
      else if currentPage == totalPages - 1 then d.width as real / 2.0
      else 0.0
  }

  /** The previous-page button is disabled with no file or on page 0. */
  function PrevDisabled(hasFile: bool, currentPage: int): (d: bool)
    ensures !hasFile ==> d
    ensures hasFile ==> (d <==> currentPage == 0)
  {
    !hasFile || currentPage == 0
  }

  /** The next-page button is disabled with no file or on the last page (or beyond). */
  function NextDisabled(hasFile: bool, currentPage: int, totalPages: int): (d: bool)
    ensures !hasFile ==> d
    ensures hasFile ==> (d <==> currentPage + 1 >= totalPages)
  {
    !hasFile || currentPage >= totalPages - 1
  }

  /**
    The buttons' disabled expressions agree with the no-op guards of the
    `FlipBook` component's `flipPrev` and `flipNext`: within the page range
    and with no flip running, each button is disabled exactly when that
    component would ignore the flip. The stage itself drives react-pageflip's
    book, whose own guards are not part of this model.
   */
  lemma ButtonsMatchBookGuards(b: FlipBook.Book, currentPage: int, totalPages: int)
    requires !b.isFlipping && 0 <= currentPage < totalPages
    ensures PrevDisabled(true, currentPage) <==> FlipBook.FlipPrev(b, currentPage) == b
    ensures NextDisabled(true, currentPage, totalPages) <==> FlipBook.FlipNext(b, currentPage, totalPages) == b
  {
  }

  /** The counter: the page and the last index, each padded to two digits; `00 / 00` with no pages. */
  function Counter(currentPage: int, totalPages: int): (s: string)
    ensures totalPages <= 0 ==> s == "00 / 00"
  {
    if totalPages > 0 then Text.PadInt2(currentPage) + " / " + Text.PadInt2(totalPages - 1)
    else "00 / 00"
  }

  /** `s` reads as `<first> / <second>`, split at `k`, with both fields digit runs worth those numbers. */
  predicate ReadsAsCounter(s: string, k: nat, first: nat, second: nat) {
    && k + 3 <= |s|
    && s[k..k + 3] == " / "
    && Text.AllDigits(s[..k]) && Text.ParseNat(s[..k]) == first
    && Text.AllDigits(s[k + 3..]) && Text.ParseNat(s[k + 3..]) == second
  }

  /**
    The counter reads back: its first field is the current page and its
    second the last page index, separated by ` / `; up to 100 pages it is
    always seven characters.
   */
  lemma CounterReadsBack(currentPage: int, totalPages: int)
    requires totalPages > 0 && currentPage >= 0
    ensures ReadsAsCounter(Counter(currentPage, totalPages), |Text.PadInt2(currentPage)|, currentPage, totalPages - 1)
    ensures currentPage < 100 && totalPages <= 100 ==> |Counter(currentPage, totalPages)| == 7
  {
    var left, right := Text.PadInt2(currentPage), Text.PadInt2(totalPages - 1);
    Text.PadInt2ReadsBack(currentPage);
    Text.PadInt2ReadsBack(totalPages - 1);
    CounterFields(left, right, currentPage, totalPages - 1);
    assert Counter(currentPage, totalPages) == left + " / " + right;
  }

  /** Two digit fields joined by ` / ` read back as their values. */
  lemma CounterFields(left: string, right: string, first: nat, second: nat)
    requires Text.AllDigits(left) && Text.ParseNat(left) == first
    requires Text.AllDigits(right) && Text.ParseNat(right) == second
    ensures ReadsAsCounter(left + " / " + right, |left|, first, second)
  {
    var s := left + " / " + right;
    assert s[..|left|] == left;
    assert s[|left|..|left| + 3] == " / ";
    assert s[|left| + 3..] == right;
  }

  /**
    With a file loaded and the page in range, the buttons agree with the
    counter: "previous" is disabled exactly when the counter reads
    `0 / <last>`, and "next" exactly when it reads `<last> / <last>`.
   */
  lemma ButtonsAgreeWithCounter(currentPage: int, totalPages: int)
    requires 0 <= currentPage < totalPages
    ensures var s, k := Counter(currentPage, totalPages), |Text.PadInt2(currentPage)|;
      && ReadsAsCounter(s, k, currentPage, totalPages - 1)
      && (PrevDisabled(true, currentPage) <==> ReadsAsCounter(s, k, 0, totalPages - 1))
      && (NextDisabled(true, currentPage, totalPages) <==> ReadsAsCounter(s, k, totalPages - 1, totalPages - 1))
  {
    CounterReadsBack(currentPage, totalPages);
  }

  /**
    Once the dimensions are known (a positive width), the book is shifted left
    exactly on the page where "previous" is disabled, and shifted right only
    where "next" is disabled.
   */
  lemma ShiftFollowsButtons(d: Dims, currentPage: int, totalPages: int)
    requires d.width > 0
    ensures ShiftX(Some(d), currentPage, totalPages) < 0.0 <==> PrevDisabled(true, currentPage)
    ensures ShiftX(Some(d), currentPage, totalPages) > 0.0 ==> NextDisabled(true, currentPage, totalPages)
    ensures ShiftX(Some(d), currentPage, totalPages) == 0.0 ==> !PrevDisabled(true, currentPage)
  {
  }

  // ---- the stage's own state and the events it reacts to ----

  datatype StageState = StageState(
    scale: Num,
    isFlipping: bool,
    dims: Option<Dims>,
    pdfError: Option<string>,
    isDragOver: bool,
    resetTimers: nat)

  const InitialStage := StageState(Finite(1.0), false, None, None, false, 0)

  /** What the stage's props say at the time of an event. */
  datatype Props = Props(
    hasFile: bool,
    config: Config,
    currentPage: int,
    totalPages: int,
    bookMounted: bool,
    audioReady: bool,
    hasOnError: bool)

  datatype StageEffect =
    | PlaySound
    | RendererFlipPrev
    | RendererFlipNext
    | ArmFlipReset(delay: int)
    | PageChange(page: int)
    | LoadSuccess(numPages: int)
    | ReportError(message: string)
    | Upload(file: File)

  datatype Reaction = Reaction(next: StageState, effects: seq<StageEffect>)

  /** `playFlipSound`: the page-turn sound is attempted only with sound on and the audio element ready. */
  function FlipSound(p: Props): (fx: seq<StageEffect>)
    ensures fx == [PlaySound] <==> p.config.useSound && p.audioReady
    ensures fx == [] <==> !(p.config.useSound && p.audioReady)
  {
    if p.config.useSound && p.audioReady then [PlaySound] else []
  }

  /** The mouse-down handler of the book area, which plays the sound when sound is on. */
  function OnBookMouseDown(p: Props): (fx: seq<StageEffect>)
    ensures PlaySound in fx ==> p.config.useSound
    ensures fx == FlipSound(p)
  {
    if p.config.useSound then FlipSound(p) else []
  }

  /**
    `goToPrev`: with a mounted book and no flip under way, the stage marks a
    flip, plays the sound if enabled, and asks the renderer for exactly one
    backward flip. There is no page-bounds check here.
   */
  function GoToPrev(s: StageState, p: Props): (r: Reaction)
    ensures !p.bookMounted || s.isFlipping ==> r == Reaction(s, [])
    ensures p.bookMounted && !s.isFlipping ==>
      && r.next == s.(isFlipping := true)
      && r.effects == FlipSound(p) + [RendererFlipPrev]
  {
    if p.bookMounted && !s.isFlipping then Reaction(s.(isFlipping := true), FlipSound(p) + [RendererFlipPrev])
    else Reaction(s, [])
  }

  /** `goToNext`: as `goToPrev`, forward. */
  function GoToNext(s: StageState, p: Props): (r: Reaction)
    ensures !p.bookMounted || s.isFlipping ==> r == Reaction(s, [])
    ensures p.bookMounted && !s.isFlipping ==>
      && r.next == s.(isFlipping := true)
      && r.effects == FlipSound(p) + [RendererFlipNext]
  {
    if p.bookMounted && !s.isFlipping then Reaction(s.(isFlipping := true), FlipSound(p) + [RendererFlipNext])
    else Reaction(s, [])
  }

  /**
    The renderer's `onFlip`: the new index goes to the parent and a timer is
    armed that will clear `isFlipping` after `flipSpeed` ms.
   */
  function OnFlip(s: StageState, p: Props, index: int): (r: Reaction)
    ensures r.next == s.(resetTimers := s.resetTimers + 1)
    ensures r.effects == [PageChange(index), ArmFlipReset(p.config.flipSpeed)]
  {
    Reaction(s.(resetTimers := s.resetTimers + 1), [PageChange(index), ArmFlipReset(p.config.flipSpeed)])
  }

  /** One armed flip-reset timer fires: the only place `isFlipping` is cleared. */
  function OnFlipResetFired(s: StageState): (s': StageState)
    ensures s.resetTimers == 0 ==> s' == s
    ensures s.resetTimers > 0 ==> !s'.isFlipping && s'.resetTimers == s.resetTimers - 1
    ensures s' == s || s' == s.(isFlipping := false, resetTimers := s.resetTimers - 1)
  {
    if s.resetTimers == 0 then s else s.(isFlipping := false, resetTimers := s.resetTimers - 1)
  }

  /** The window resized (or new dimensions arrived): the scale is refitted once dimensions exist. */
  function OnResize(s: StageState, p: Props, window: Size): (s': StageState)
    requires s.dims.Some? ==> s.dims.value.height > 0
    ensures s.dims.None? ==> s' == s
    ensures s.dims.Some? ==> s' == s.(scale := FitScale(window, s.dims.value, p.hasFile))
  {
    match s.dims
    case None => s
    case Some(d) => s.(scale := FitScale(window, d, p.hasFile))
  }

  /**
    `onDocumentLoad`: page 1's viewport gives the dimensions and the page
    count goes to the parent; if page 1 cannot be read, the failure is
    reported through `onError` when one was given, and nothing else changes.
   */
  function OnDocumentLoad(s: StageState, p: Props, page1: Option<Size>, numPages: int): (r: Reaction)
    requires page1.Some? ==> page1.value.height > 0.0
    ensures page1.Some? ==>
      && r.next == s.(dims := Some(BookDimensions(page1.value)))
      && r.effects == [LoadSuccess(numPages)]
    ensures page1.None? ==>
      && r.next == s
      && r.effects == (if p.hasOnError then [ReportError(LoadFailureMessage)] else [])
  {
    match page1
    case Some(vp) => Reaction(s.(dims := Some(BookDimensions(vp))), [LoadSuccess(numPages)])
    case None => Reaction(s, if p.hasOnError then [ReportError(LoadFailureMessage)] else [])
  }

  /** The document failed to load: the message (or a default for an empty one) is kept and reported. */
  function OnLoadError(s: StageState, p: Props, message: string): (r: Reaction)
    ensures r.next.pdfError.Some? && r.next == s.(pdfError := r.next.pdfError)
    ensures r.next.pdfError.value == (if message == "" then DefaultLoadError else message)
    ensures r.effects == (if p.hasOnError then [ReportError(r.next.pdfError.value)] else [])
  {
    var msg := if message == "" then DefaultLoadError else message;
    Reaction(s.(pdfError := Some(msg)), if p.hasOnError then [ReportError(msg)] else [])
  }

  /** A new file (or none): the dimensions and the error are forgotten. */
  function OnFileChanged(s: StageState): (s': StageState)
    ensures s'.dims.None? && s'.pdfError.None?
    ensures s' == s.(dims := None, pdfError := None)
  {
    s.(dims := None, pdfError := None)
  }

  /** A drag over the upload area highlights it; nothing else changes. */
  function OnDragOver(s: StageState): (s': StageState)
    ensures s'.isDragOver && s' == s.(isDragOver := true)
  {
    s.(isDragOver := true)
  }

  /** A drag leaving the upload area removes the highlight; nothing else changes. */
  function OnDragLeave(s: StageState): (s': StageState)
    ensures !s'.isDragOver && s' == s.(isDragOver := false)
  {
    s.(isDragOver := false)
  }

  /** Files dropped on the upload area: only a first file of type `application/pdf` is uploaded. */
  function OnDrop(s: StageState, files: seq<File>): (r: Reaction)
    ensures r.next == s.(isDragOver := false)
    ensures |r.effects| <= 1
    ensures |r.effects| == 1 <==> |files| > 0 && IsPdf(files[0])
    ensures |r.effects| == 1 ==> r.effects[0] == Upload(files[0])
  {
    var chosen := FirstPdf(files);
    Reaction(s.(isDragOver := false), if chosen.Some? then [Upload(chosen.value)] else [])
  }
  datatype DragEvent = DragOver | DragLeave | Dropped(files: seq<File>)

  function Drag(s: StageState, e: DragEvent): StageState {
    match e
    case DragOver => OnDragOver(s)
    case DragLeave => OnDragLeave(s)
    case Dropped(files) => OnDrop(s, files).next
  }

  function DragAll(s: StageState, es: seq<DragEvent>): StageState
    decreases |es|
  {
    if |es| == 0 then s else DragAll(Drag(s, es[0]), es[1..])
  }

  /**
    Over any sequence of drag events the upload area is highlighted exactly
    when the last one was a drag over, and the rest of the stage is untouched.
   */
  lemma {:induction false} HighlightFollowsLastEvent(s: StageState, es: seq<DragEvent>)
    requires |es| > 0
    ensures DragAll(s, es).isDragOver <==> es[|es| - 1].DragOver?
    ensures DragAll(s, es) == s.(isDragOver := DragAll(s, es).isDragOver)
    decreases |es|
  {
    if |es| > 1 {
      HighlightFollowsLastEvent(Drag(s, es[0]), es[1..]);
      assert es[1..][|es[1..]| - 1] == es[|es| - 1];
    }
  }


  /** Files chosen in the file picker: the same filter as a drop. */
  function OnFileSelect(files: seq<File>): (fx: seq<StageEffect>)
    ensures |fx| <= 1
    ensures |fx| == 1 <==> |files| > 0 && IsPdf(files[0])
    ensures |fx| == 1 ==> fx[0] == Upload(files[0])
  {
    var chosen := FirstPdf(files);
    if chosen.Some? then [Upload(chosen.value)] else []
  }

  /** A second button press while a flip is under way does nothing: flips are serialised. */
  lemma NavigationSerialised(s: StageState, p: Props, q: Props)
    requires p.bookMounted
    ensures GoToNext(GoToNext(s, p).next, q).effects == []
    ensures GoToPrev(GoToNext(s, p).next, q).effects == []
    ensures GoToNext(GoToPrev(s, p).next, q).effects == []
    ensures GoToPrev(GoToPrev(s, p).next, q).effects == []
  {
  }

  /**
    After a button press, navigation is possible again only once the flip the
    renderer reported has had its reset timer fire.
   */
  lemma FlipReleasedByTimer(s: StageState, p: Props, index: int)
    requires p.bookMounted && !s.isFlipping && s.resetTimers == 0
    ensures var pressed := GoToNext(s, p).next;
      var flipped := OnFlip(pressed, p, index).next;
      && flipped.isFlipping
      && !OnFlipResetFired(flipped).isFlipping
      && GoToNext(OnFlipResetFired(flipped), p).effects != []
  {
  }
}
