# FLIPSYS flipbook core, modelled in Dafny

FLIPSYS is a web application that shows an uploaded PDF as a two-page
flipbook. This project models the logic inside its React components as pure
state machines over immutable records, and proves properties of them. It
covers these parts:

- **The touch gesture recogniser** (`FlipbookTouch`, `touch.dfy`). It turns
  touch start, move, end and cancel into synthetic pointer events and
  callbacks. The deferred animation-frame update is an explicit event.
- **The two-page spread component** (`FlipBook`, `flipbook.dfy`). This is
  the flip guard, the completion report, and which child sits on which side
  and face.
- **The stage** (`Stage`, `stage.dfy`). This covers:
  - the book dimensions and the fit-to-window scale;
  - the `isFlipping` navigation guard and the reset timer that clears it;
  - the sound gate;
  - the PDF filter on drop and select;
  - the shift, the button states and the page counter.
- **The application shell** (`App`, `app.dfy`). It holds the configuration,
  the file, the page count, the page and the ready flag, and wires the props
  to the stage and the toolbar.
- **The resizable panel** (`ResizablePanel`, `panel.dfy`).
- **The loading screen** (`LoadingState`, `loading.dfy`). This covers the
  progress percentage, the elapsed counter, the time and timestamp
  rendering, the rolling four-line log and the remaining-time estimate.
- **The toolbar** (`Toolbar`, `toolbar.dfy`). This covers the name and size
  labels (measured in UTF-16 code units, as JavaScript does), the
  configuration controls, the file filter, the share generation's guard, URL
  and labels, and the control flow of the `uploadPDF` call behind it.
- **Shared types** (`Types`, `types.dfy`). These are the default
  configuration, the PDF filter and the unit choice of `formatBytes`.

`Text` (`text.dfy`) renders integers as JavaScript does, pads with
`padStart(2, '0')`, and parses digits back. `Wrappers` holds `Option`.

Numbers are Dafny `real`s. JavaScript's floor division and its
sign-of-dividend `%` are written out. The fit scale divides by zero for a
book of width 0, so it is a JavaScript number with ±Infinity and NaN. Square roots are replaced by comparing
squares. Clocks, the window size, page 1's viewport, the container
rectangle, the page origin and the storage backend's answers are all
parameters.
Timers and animation frames are explicit events.

A single quick move does not commit a flip by speed alone. The code smooths
the speed as `0.7·v + 0.3·|dx|/dt` starting from 0, so one 60 px move in 50 ms
(1.2 px/ms) gives 0.36 px/ms, below the 0.45 trigger.
The model follows the code: `FlipbookTouch.FastSwipeFlipsAfterFrame` shows
that such a swipe flips only through its progress, and only if the frame ran
before the release.

## Model

| member | source | states |
|---|---|---|
| FlipbookTouch.Clamp | hooks/useFlipbookTouch.ts:65-67 | the result lies in [min, max], equals the value inside it, and equals the nearer bound outside it |
| FlipbookTouch.DragProgress | hooks/useFlipbookTouch.ts:114-117 | progress lies in [-1, 1]; it is 0 when the page width is ≤ 0; inside ±width it is exactly deltaX/width, otherwise ±1 |
| FlipbookTouch.PeelPressure | hooks/useFlipbookTouch.ts:200 | the pointermove pressure lies in [0.5, 1]; it is 0.5 exactly at zero progress and 1 exactly at full progress |
| FlipbookTouch.EventInit | hooks/useFlipbookTouch.ts:90-108 | screen coordinates equal client coordinates; pointer id 1, type "touch", primary, button 0; `buttons` is 0 exactly for pointerup and 1 otherwise |
| FlipbookTouch.OnTouchStart | hooks/useFlipbookTouch.ts:120-142 | disabled: no change and no effects; enabled: a fresh gesture at the touch point and clock, peeling off, nothing emitted, and the pending frame is kept, with its captured point and displacement unchanged, but no longer bound to the gesture |
| FlipbookTouch.SmoothVelocity | hooks/useFlipbookTouch.ts:160-163 | the speed is unchanged when deltaTime ≤ 0; otherwise it is the 0.7/0.3 average with abs(deltaX)/deltaTime; it is never negative when the old speed was not |
| FlipbookTouch.NextDirection | hooks/useFlipbookTouch.ts:166-168 | the direction changes only on a mostly horizontal move; it is then right exactly when deltaX > 0, and left exactly when deltaX < 0 |
| FlipbookTouch.OnTouchMove | hooks/useFlipbookTouch.ts:145-205 | disabled: a no-op; enabled: the position and deltas follow the touch and the start is kept; the first move with travel² > 64 emits pointerdown at the start with pressure 0.5, then onDragStart, and sets both dragging and peeling; a peeling move replaces the pending frame; otherwise nothing is emitted |
| FlipbookTouch.OnFrame | hooks/useFlipbookTouch.ts:198-201 | with no frame pending, nothing happens; otherwise the frame is consumed, the progress of its displacement is stored if its gesture is still current, and one pointermove is emitted at the captured touch point |
| FlipbookTouch.PeelRelease | hooks/useFlipbookTouch.ts:222-247 | past 0.18 progress or 0.45 speed with a direction: pointermove and pointerup at startX ± 1.5·pageWidth, then onFlipNext for left or onFlipPrev for right; otherwise pointermove and pointerup at the start point, with no flip call |
| FlipbookTouch.TapCalls | hooks/useFlipbookTouch.ts:251-267 | nothing is called without a container or a positive page width; otherwise onFlipPrev is called exactly when the tap is left of half the width, onFlipNext exactly when it is right of it, and neither in the exact middle |
| FlipbookTouch.OnTouchEnd | hooks/useFlipbookTouch.ts:208-284 | disabled: a no-op; enabled: the recogniser resets to the all-zero record with no frame; a peel emits its release and then onDragEnd; a touch that never dragged is judged as a tap |
| FlipbookTouch.OnTouchCancel | hooks/useFlipbookTouch.ts:287-318 | disabled: a no-op; enabled: the recogniser resets; a peel emits exactly pointercancel at the current point, then onDragEnd; otherwise nothing is emitted |
| FlipbookTouch.Step | hooks/useFlipbookTouch.ts:326-329 | disabled, every touch event is ignored and only an already requested frame can act; enabled, a touch start emits nothing and an end or cancel always resets the recogniser |
| FlipbookTouch.RunValid | hooks/useFlipbookTouch.ts:171-201 | every event sequence keeps the invariant: dragging equals peeling, progress lies in [-1, 1], speed is non-negative, and a live frame carries the gesture's current displacement |
| FlipbookTouch.ProgressBounded | hooks/useFlipbookTouch.ts:114-117 | from the initial state, every reachable progress lies in [-1, 1] and every reachable speed is ≥ 0 |
| FlipbookTouch.DisabledRunInert | hooks/useFlipbookTouch.ts:121 | with the hook disabled and no frame pending, any event sequence changes nothing and emits nothing |
| FlipbookTouch.OneDownPerGesture | hooks/useFlipbookTouch.ts:173-185 | within one gesture (moves and frames only) at most one pointerdown is emitted, and none once dragging |
| FlipbookTouch.StepBalanced | hooks/useFlipbookTouch.ts:249-250 | each event other than a touch start during a peel keeps downs plus open peels equal to terminal events plus open peels; the same holds for onDragStart and onDragEnd |
| FlipbookTouch.StepClosed | hooks/useFlipbookTouch.ts:120-141 | the corrected event step: a touch start during a peel first emits pointercancel and onDragEnd, then starts afresh; every other event is handled as written |
| FlipbookTouch.RunClosedBalanced | hooks/useFlipbookTouch.ts:297-301 | with the corrected step, every pointerdown of a run is answered by exactly one pointerup or pointercancel, and every onDragStart by one onDragEnd, apart from a peel still open at the end |
| FlipbookTouch.SecondTouchStrandsPeel | hooks/useFlipbookTouch.ts:141 | as written, start–move–second touch start emits one pointerdown and one onDragStart, no terminal event and no onDragEnd, and leaves peeling off |
| FlipbookTouch.ShortSlowSwipeSnapsBack | hooks/useFlipbookTouch.ts:244-246 | a slow 40 px left swipe on a 300 px page produces this exact trace: down, onDragStart, frame move, snap-back move and up at the start, onDragEnd |
| FlipbookTouch.FastSwipeFlipsAfterFrame | hooks/useFlipbookTouch.ts:215-224 | a 60 px swipe in 50 ms flips forward (target −350) when the frame ran, and snaps back when the release cancels the frame first |
| FlipbookTouch.TapZones | hooks/useFlipbookTouch.ts:256-265 | taps at 10 % and 90 % of a 400 px container call onFlipPrev and onFlipNext; a tap in the middle calls nothing |
| FlipBook.DisplayedPage | components/FlipBook.tsx:57 | the displayed page is even, and currentPage lies in [d, d+2) |
| FlipBook.DisplayedPageUnique | components/FlipBook.tsx:87-88 | only one even d has currentPage in [d, d+2), so the left index d and the right index d+1 are determined |
| FlipBook.FlipNext | components/FlipBook.tsx:59-63 | nothing changes while flipping or when currentPage ≥ totalPages−1; otherwise a forward flip starts |
| FlipBook.FlipPrev | components/FlipBook.tsx:65-69 | nothing changes while flipping or when currentPage ≤ 0; otherwise a backward flip starts |
| FlipBook.AnimationComplete | components/FlipBook.tsx:76-84 | a page is reported exactly when there is a direction: +1 for next and −1 for prev; the book is then at rest |
| FlipBook.At | components/FlipBook.tsx:114 | `children[i]` is present exactly for 0 ≤ i < count, and is then that child |
| FlipBook.View | components/FlipBook.tsx:104-178 | the static left page is shown iff it exists and no prev flip runs, the right one iff it exists and no next flip runs; the leaf exists only while flipping; it is the right page going forward and the left going back; its back face is left+2 or right−2 when present |
| FlipBook.PerformConsistent | components/FlipBook.tsx:60-80 | any sequence of clicks and completions keeps the page in [0, totalPages) and a flip only where its target exists |
| FlipBook.LeafShownWhileFlipping | components/FlipBook.tsx:135 | in a consistent state during a flip, the turning leaf and its front face are rendered, so the flip can complete |
| FlipBook.ForwardFromLeftPageKeepsSpread | components/FlipBook.tsx:57 | a completed forward flip from an even page moves to the odd page of the same spread |
| Stage.BookDimensions | components/Stage.tsx:103-107 | the height is 600 and the width is ⌊600·w/h⌋ of page 1 |
| Stage.FitScale | components/Stage.tsx:122-150 | unless NaN, the scale lies in [0.2, 1.2]; above 0.2 the two-page footprint fits the padded window; no larger scale in range fits; it is NaN exactly when the book has width 0 and the window is exactly the 40 px padding wide |
| Stage.Divide | components/Stage.tsx:136-137 | JavaScript division: finite exactly for a non-zero divisor, then the quotient; otherwise +Infinity, −Infinity, or NaN for 0/0 |
| Stage.MinFinite | components/Stage.tsx:140 | `Math.min` with a finite second operand: NaN wins, +Infinity gives the other operand, −Infinity wins |
| Stage.ClampScale | components/Stage.tsx:144-147 | NaN stays NaN; anything else ends in [0.2, 1.2], and a value already there is kept |
| Stage.HeightAloneDecides | components/Stage.tsx:125-140 | with a book of width 0 and room across, the height ratio fits and every fitting scale is at most it |
| Stage.NarrowPageFitsByHeight | components/Stage.tsx:103-104 | a 1 × 601 page gives a book of width 0, which fits a 1000 px window with a file at 680/600 and a 40 px window at NaN |
| Stage.FitIsLargest | components/Stage.tsx:136-140 | the smaller of the two ratios makes both sides fit, and every scale that fits is at most it |
| Stage.ShiftX | components/Stage.tsx:314 | no shift without dimensions; −w/2 on page 0 (which wins on a one-page book); +w/2 on the last page; 0 otherwise |
| Stage.PrevDisabled | components/Stage.tsx:413 | without a file the button is disabled; with one, exactly on page 0 |
| Stage.NextDisabled | components/Stage.tsx:425 | without a file the button is disabled; with one, exactly when no page follows the current one |
| Stage.ButtonsMatchBookGuards | components/FlipBook.tsx:59-69 | with the page in range and no flip running, the stage's disabled expressions coincide with the no-op guards of the FlipBook component's flipPrev and flipNext (the stage itself drives react-pageflip's book, which is left out) |
| Stage.Counter | components/Stage.tsx:419 | "00 / 00" when there are no pages |
| Stage.CounterReadsBack | components/Stage.tsx:419 | with pages, the counter is two padded fields around " / " that read back as the page and totalPages−1; up to 100 pages it has seven characters |
| Stage.ButtonsAgreeWithCounter | components/Stage.tsx:413-425 | with a file and the page in range, prev is disabled iff the counter reads "0 / last", and next iff it reads "last / last" |
| Stage.ShiftFollowsButtons | components/Stage.tsx:314 | with known dimensions, the book shifts left iff prev is disabled, and shifts right only where next is disabled |
| Stage.FlipSound | components/Stage.tsx:158-171 | the sound is attempted exactly when sound is on and the audio element exists |
| Stage.OnBookMouseDown | components/Stage.tsx:357-361 | a mouse-down plays sound only with useSound on |
| Stage.GoToPrev | components/Stage.tsx:173-180 | without a mounted book or during a flip, nothing happens; otherwise isFlipping is set, the sound gate runs, and exactly one renderer flipPrev is issued, with no bounds check |
| Stage.GoToNext | components/Stage.tsx:182-189 | as GoToPrev, forward |
| Stage.OnFlip | components/Stage.tsx:386-389 | the new index goes to onPageChange and one reset timer of flipSpeed ms is armed; nothing else changes |
| Stage.OnFlipResetFired | components/Stage.tsx:388 | a fired timer clears isFlipping; with no timer armed, nothing changes |
| Stage.NavigationSerialised | components/Stage.tsx:174 | a second prev or next during a flip has no effect |
| Stage.FlipReleasedByTimer | components/Stage.tsx:386-389 | after a press, isFlipping stays set through onFlip and is cleared only by the timer, after which next works again |
| Stage.OnResize | components/Stage.tsx:119-153 | nothing changes without dimensions; otherwise the scale is refitted, including for a book of width 0 |
| Stage.OnDocumentLoad | components/Stage.tsx:96-116 | on success, the dimensions are set and the page count is reported; on failure, the state is kept and "Failed to process PDF structure" goes to onError if one exists |
| Stage.OnLoadError | components/Stage.tsx:329-340 | the error message (or "Failed to load PDF" when it is empty) is stored and sent to onError when present |
| Stage.OnFileChanged | components/Stage.tsx:91-94 | a file change clears the dimensions and the error and nothing else |
| Stage.OnDragOver | components/Stage.tsx:191-195 | a drag over the upload area sets the highlight and changes nothing else |
| Stage.OnDragLeave | components/Stage.tsx:197-201 | a drag leaving the area clears the highlight and changes nothing else |
| Stage.OnDrop | components/Stage.tsx:203-211 | the drag highlight ends; the first file is uploaded exactly when its type is application/pdf |
| Stage.OnFileSelect | components/Stage.tsx:213-218 | the first selected file is uploaded exactly when its type is application/pdf |
| Stage.HighlightFollowsLastEvent | components/Stage.tsx:191-211 | after any sequence of drag-over, drag-leave and drop, the area is highlighted exactly when the last event was a drag-over, and nothing else in the stage changed |
| App.InitialApp | App.tsx:12-16 | the default config (1000 ms, hard cover, sound on, shadow 32, scale 1), no file, 0 pages, page 0, not ready |
| App.Upload | App.tsx:29-33 | the file is set, the page is 0 and the app is not ready; the page count and the config are unchanged |
| App.PageChange | App.tsx:35-37 | the page becomes exactly the reported index and nothing else changes |
| App.DocumentLoadSuccess | App.tsx:39-42 | the page count is stored and the app is ready; the config, the file and the page are unchanged |
| App.SetConfig | App.tsx:12 | the configuration becomes exactly the one passed, and nothing else changes |
| App.PageChangeLastWins | App.tsx:35-37 | of two page changes, the later one wins |
| App.ConfigOnlyBySetConfig | App.tsx:12 | uploads, loads and page changes never alter the configuration |
| App.FileOnlyByUpload | App.tsx:13 | only an upload changes the file |
| App.StageProps | App.tsx:49-57 | the stage sees a file exactly when one was uploaded, plus the app's config, page and page count |
| App.FreshDocumentOpensAtFirstPage | App.tsx:29-42 | after an upload and a load of ≥ 2 pages: page 0, ready, prev disabled, next enabled, counter "00 / NN", shifted left by half a page |
| App.UploadEntryPointsAgree | components/Stage.tsx:203-218 | drop, the stage picker and the toolbar picker all forward the first file exactly when it is a PDF, and the same file |
| App.ToolbarPropsAsWritten | App.tsx:59-65 | the toolbar gets the config, the file's name and size, and no pdfFile |
| App.GenerateNeverStartsAsWritten | App.tsx:59-65 | with the props as written, generate never starts and never uploads |
| App.GenerateEnabledButInert | components/Toolbar.tsx:159 | with a named file loaded, the generate button is enabled and yet pressing it does nothing |
| App.ToolbarPropsOf | App.tsx:59-65 | the corrected props also pass the uploaded file as pdfFile |
| App.GenerateStartsWhenEnabled | components/Toolbar.tsx:33-35 | with the corrected props, generate starts exactly when its button is enabled, and it sends the uploaded file |
| App.ShareNeedsBothFixes | components/Toolbar.tsx:37 | with a working backend: the props as written upload nothing; passing the file still ends in the failure alert; passing the file and the configuration copies the share URL |
| ResizablePanel.InitialPanel | components/ResizablePanel.tsx:16-19 | the initial height is defaultHeight, unclamped, and no drag is running |
| ResizablePanel.ClampHeight | components/ResizablePanel.tsx:32 | the result is ≥ min; it is ≤ max when the bounds are ordered; it is the value inside them; crossed bounds give min |
| ResizablePanel.ClampMonotone | components/ResizablePanel.tsx:32 | clamping preserves order |
| ResizablePanel.MouseDown | components/ResizablePanel.tsx:21-26 | a drag starts, recording the pointer Y and the current height; the height is unchanged |
| ResizablePanel.MouseMove | components/ResizablePanel.tsx:28-34 | outside a drag nothing changes; during one, the height is clamp(startHeight + startY − y) and nothing else changes |
| ResizablePanel.MouseUp | components/ResizablePanel.tsx:36-38 | the drag ends and the height stays |
| ResizablePanel.MovingUpGrows | components/ResizablePanel.tsx:31-32 | during a drag, a higher pointer never gives a smaller panel |
| ResizablePanel.LastMoveDecides | components/ResizablePanel.tsx:31-32 | within one drag, the height after any moves equals the height after the last move alone |
| ResizablePanel.StaysInBounds | components/ResizablePanel.tsx:32 | with ordered bounds, once inside them the height stays inside under any events |
| ResizablePanel.DefaultNotClamped | components/ResizablePanel.tsx:16 | a default height above max stays until the first drag move brings it into the bounds |
| LoadingState.Progress | components/LoadingState.tsx:21 | 0 without pages; otherwise p·total = 100·current, and p lies in [0, 100] for current in [0, total] |
| LoadingState.ElapsedCountsTicks | components/LoadingState.tsx:24-29 | the elapsed counter equals the number of one-second ticks, and the log is untouched |
| LoadingState.Tick | components/LoadingState.tsx:25-26 | one interval adds exactly one second and leaves the log alone |
| LoadingState.JsRem60 | components/LoadingState.tsx:55 | the remainder differs from s by a multiple of 60 and takes the sign of s, as JavaScript's `%` does |
| LoadingState.FormatTime | components/LoadingState.tsx:53-57 | the hour field is always "00:" and the string has at least 8 characters |
| LoadingState.FormatTimeReadsBack | components/LoadingState.tsx:53-57 | for a count mins·60 + secs with secs < 60 (every count ≥ 0 has one such form), the minutes field reads back as mins (not wrapped at 60) and the two-character seconds field as secs; below 100 minutes the string has eight characters |
| LoadingState.FormatTimeOfNegative | components/LoadingState.tsx:54-56 | a negative count renders with signed fields: −5 s gives "00:-1:-5" |
| LoadingState.Timestamp | components/LoadingState.tsx:33-36 | pad2(h):pad2(m):pad2(s), at least 8 characters |
| LoadingState.TimestampReadsBack | components/LoadingState.tsx:33-36 | for clock values the timestamp is HH:MM:SS, and each field reads back as its value |
| LoadingState.LogEntry | components/LoadingState.tsx:39 | the entry starts with the bracketed clock and "] Processing page ", and ends with "..." |
| LoadingState.LogEntryReadsBack | components/LoadingState.tsx:39 | for non-negative counts, the page's digits, a slash and the total's digits follow the prefix, and both fields parse back |
| LoadingState.AppendLog | components/LoadingState.tsx:38-41 | a positive page appends its entry after keeping at most the last three; a page ≤ 0 leaves the log alone |
| LoadingState.LastThree | components/LoadingState.tsx:40 | `slice(-3)` is the suffix of length min(n, 3) |
| LoadingState.LogIsLastFourEntries | components/LoadingState.tsx:38-41 | from an empty log, the log is the last min(k, 4) entries of the logging updates, newest last |
| LoadingState.Ceil | components/LoadingState.tsx:60 | `Math.ceil`: c − 1 < x ≤ c |
| LoadingState.EstimatedRemaining | components/LoadingState.tsx:59-61 | 0 unless total and current are > 0; otherwise the least integer ≥ (total − current)·elapsed/current |
| LoadingState.EstimateSign | components/LoadingState.tsx:59-61 | with pages remaining and time ≥ 0 the estimate is ≥ 0; at the last page it is 0 |
| Toolbar.InitialToolbar | components/Toolbar.tsx:16-19 | not generating, not copied, the placeholder URL, and the slider at config.flipSpeed |
| Toolbar.FileNameLabel | components/Toolbar.tsx:85 | measured in UTF-16 code units: "N/A" without a name; a name of ≤ 12 units is shown as it is; a longer one becomes its first 10 units plus "..." (13 units) |
| Toolbar.FileNameLabelOfBmp | components/Toolbar.tsx:85 | for a name of BMP characters only, the label is the name up to 12 characters, else its first 10 characters plus "..." |
| Toolbar.AstralNameIsCut | components/Toolbar.tsx:85 | a character beyond U+FFFF followed by 11 BMP characters is 12 characters but 13 units, so it is cut to that character, 8 more and "..." |
| Toolbar.CutCanSplitPair | components/Toolbar.tsx:85 | after 9 BMP characters, a character beyond U+FFFF leaves only its high surrogate as the label's tenth unit |
| Toolbar.UploadButtonLabel | components/Toolbar.tsx:77 | "REPLACE FILE" exactly when a non-empty name is present, "UPLOAD FILE" otherwise, and then the name label reads "N/A" |
| Toolbar.SizeText | components/Toolbar.tsx:90 | the literal "0KB" exactly when the size is missing or 0; otherwise formatBytes with 2 decimals, which is then always a scaled amount and never "0 B" |
| Toolbar.SizeLabel | components/Toolbar.tsx:90 | the shown text is "0KB" for a falsy size and otherwise the numeral followed by the unit, with no space when the numeral has none |
| Toolbar.ToggleSound | components/Toolbar.tsx:134 | only useSound changes, and it flips |
| Toolbar.ToggleSoundTwice | components/Toolbar.tsx:134 | toggling twice restores the configuration |
| Toolbar.SetShadow | components/Toolbar.tsx:129 | only shadowIntensity changes |
| Toolbar.SlideFlipSpeed | components/Toolbar.tsx:112 | dragging the slider changes only the local value |
| Toolbar.CommitFlipSpeed | components/Toolbar.tsx:113-114 | the release commits the local value as flipSpeed and changes nothing else |
| Toolbar.CommitTakesLastSlide | components/Toolbar.tsx:112-114 | after any drag of the slider, the release commits the last position |
| Toolbar.OnFileChange | components/Toolbar.tsx:21-27 | a first file of type application/pdf is forwarded and the URL resets to the placeholder; otherwise nothing changes |
| Toolbar.GenerateLabel | components/Toolbar.tsx:162 | the label is GENERATING..., then URL COPIED!, then GENERATE & COPY, in priority order |
| Toolbar.GenerateDisabled | components/Toolbar.tsx:159 | disabled while generating; otherwise disabled exactly when the upload button offers UPLOAD FILE, i.e. no name is present |
| Toolbar.GenerateStart | components/Toolbar.tsx:33-35 | a no-op without a non-empty name or a file; otherwise generating starts with that file |
| Toolbar.ShareUrl | components/Toolbar.tsx:40 | the URL splits back into the origin, "?share=" and the id |
| Toolbar.GenerateFinish | components/Toolbar.tsx:39-49 | on success, the URL is the share URL, copied and marked copied, and a 2 s reset is armed; on failure, an alert; either way generating ends |
| Toolbar.CopiedResetFired | components/Toolbar.tsx:44 | the timer clears only the copied mark |
| Toolbar.UploadPdf | lib/supabase.ts:17-60 | the object is stored at id/name exactly when storage succeeds; a row carrying the config's speed, shadow and sound is inserted exactly when storage succeeds, a config was passed and the insert succeeds; the answer is the id exactly when the row exists |
| Toolbar.GenerateWith | components/Toolbar.tsx:33-50 | past the guard, one upload of the props' file with the given configuration, then the success or failure finish on its answer; before it, nothing |
| Toolbar.GenerateAsWritten | components/Toolbar.tsx:37 | with no configuration passed, every click that passes the guard ends in the failure alert with no row inserted, even though a working storage keeps the object |
| Toolbar.Generate | components/Toolbar.tsx:33-50 | with the configuration passed, a working backend yields the copied share URL and a row recording the configuration; any failure yields the alert and only ends generating |
| Toolbar.ShareCycle | components/Toolbar.tsx:33-50 | with the configuration passed and a working backend, the button shows GENERATE & COPY, GENERATING... (disabled), URL COPIED! with the id at the end of the URL, then GENERATE & COPY again with the URL kept |
| Types.FirstPdf | components/Toolbar.tsx:22-23 | a file is chosen exactly when the first file has type application/pdf, and it is that file |
| Types.UnitIndex | types.ts:27 | 1024^i ≤ bytes < 1024^(i+1) |
| Types.FindUnitIndex | types.ts:27 | the unit found by counting up satisfies the same bounds |
| Types.UnitIndexUnique | types.ts:27 | only one index satisfies the bounds, so both definitions agree |
| Types.UnitBelowFive | types.ts:26 | below 1024^5 the index names one of the five units |
| Types.FormatBytes | types.ts:22-28 | zero gives "0 B"; otherwise a unit index below 5 with the power bounds, an amount in [1, 1024) with amount·1024^i = bytes, and negative decimals taken as 0 |
| Types.Scale | types.ts:28 | amount·1024^i = bytes, and the amount lies in [1, 1024) within the unit's range |
| Types.ByteLabelText | types.ts:23-28 | with a space-free numeral, the label contains a space exactly when it is "0 B" |
| Text.Pad2 | components/Stage.tsx:419 | `padStart(2, '0')`: the length is max(2, n), the original is the suffix, and only zeros come before it |
| Text.PadInt2ReadsBack | components/LoadingState.tsx:35 | a padded non-negative number reads back as itself, and has two characters below 100 |
| Text.Utf16 | components/Toolbar.tsx:85 | a JavaScript string's code units: never fewer than the characters, and non-empty for a non-empty string |
| Text.Utf16OfBmp | components/Toolbar.tsx:85 | for characters in the Basic Multilingual Plane, the code units are the characters one for one |

## Left out

- The DOM and the browser are left out. This covers `PointerEvent` construction and `dispatchEvent`, target lookup with `querySelector`, `getBoundingClientRect`, and listener attach and detach. Emitted pointer events are abstract records.
- Dispatch with a missing container or target element is silently dropped in the code. The model emits every pointer event, and its counting lemmas assume the target exists.
- `requestAnimationFrame` and `cancelAnimationFrame` become one pending slot plus a frame event. Timers (`setTimeout`, `setInterval`) become "fired" events. `performance.now`, `Date` and `window.location.origin` are parameters.
- The `isSinglePage` option and `totalTime` are read in the touch hook but never used, so neither is modelled.
- Stage's `isManualFlipRef` is set but never read, so it is not modelled.
- The renderers are left out: the react-pageflip physics, pdf.js decoding (page 1's viewport and the page count are inputs), and framer-motion animation.
- The audio element is left out beyond the `useSound` gate and "the element exists".
- Network and storage are left out. `uploadPDF` is modelled by its control flow (Toolbar.UploadPdf), with the record id and the success of the storage upload and of the insert as parameters. The random id generation, the public URL, `getPDF` and the server function are not part of this model. As written, the toolbar calls `uploadPDF` without its configuration argument, so the call always answers null (see Findings).
- The presentational files are left out: landing page, header, bottom panel, error view and demo. So are CSS, shadows and transforms other than the shift.
- The random CPU and VRAM figures of the loading screen are not modelled.
- `toFixed` and `parseFloat` rendering is not modelled. This covers the progress text, the `formatBytes` numeral, and the floating-point `Math.log` unit choice. Types.FormatBytes returns the exact scaled amount and the unit index; Types.ByteLabelText takes the numeral as an argument.
- Types.FormatBytes: requires bytes < 1024^5, because only five units exist; larger sizes index past the unit list in the code.
- Toolbar.SizeText: requires a size below 1024^5, for the same reason.
- Toolbar.SizeLabel: requires a size below 1024^5, for the same reason, and takes the numeral as an argument.
- Stage.BookDimensions: requires a positive page height. In the code a zero height gives a non-finite width.
- Stage.OnDocumentLoad: inherits that requirement of a positive page height. It also models one load as one step, so a load of an earlier file whose awaited `getPage` finishes after a file change, and then sets stale dimensions, is not modelled.
- Stage.FitScale: requires a positive book height. The height always comes from BookDimensions, which makes it 600; the width may be 0, and that case is modelled. For a negative width, which a page of non-negative width cannot produce, only the range of the result is stated.
- Stage.OnResize: requires a positive stored height, for the same reason.
- FlipbookTouch.Clamp: requires min ≤ max. The code only calls it with −1 and 1.
- FlipbookTouch.StepBalanced: excludes a touch start during a peel. As written, that event breaks the balance (see Findings).
- LoadingState.FormatTimeReadsBack: covers whole non-negative seconds only. The estimate is always an integer, and negative counts are shown separately.
- LoadingState.AppendLog: one call models one run of the log effect. React runs the effect when the page or the page count changes; which renders change them is outside this model.
- Toolbar.FileNameLabel: a label cut inside a surrogate pair holds a lone surrogate unit, which the model keeps as a code unit; how the browser draws it is not modelled.
- Numbers are unbounded reals and integers. JavaScript's double rounding is not modelled. Its `NaN` and `Infinity` values are modelled only in the fit scale (Stage.Num).

## Findings

| source | as written | input that shows it | evidently intended | confidence | as-written member | corrected member |
|---|---|---|---|---|---|---|
| hooks/useFlipbookTouch.ts:120-141 | a touch start resets the gesture and clears the peeling flag without a pointercancel or `onDragEnd`, even while a peel is open | touch at (100, 200), move to (60, 205), then a second finger touches down | an open peel is closed (pointercancel and `onDragEnd`) before a new gesture starts, so that every pointerdown is answered | medium, not executed | FlipbookTouch.SecondTouchStrandsPeel | FlipbookTouch.RunClosedBalanced |
| App.tsx:59-65 | the toolbar is given `pdfName` and `pdfSize` but not `pdfFile`, so the generate handler always returns at its guard | upload `a.pdf`, then press the enabled GENERATE & COPY button | `pdfFile` is passed, so generate uploads the loaded file; the upload then still needs the next row's correction to succeed (App.ShareNeedsBothFixes) | high, not executed | App.GenerateNeverStartsAsWritten | App.GenerateStartsWhenEnabled |
| components/Toolbar.tsx:37 | `uploadPDF(pdfFile)` leaves out the `config` argument; `uploadPDF` stores the file, then reads `config.flipSpeed`, which throws, and its catch answers null | with the file passed through, press GENERATE & COPY with a working backend: the object is stored, no row is inserted and the failure alert appears | the toolbar's `config` is passed, so the row records it and the share URL is copied | high, not executed | Toolbar.GenerateAsWritten | Toolbar.Generate |
