/**
  The control toolbar (`Toolbar`): the file section (name and size labels,
  file picker), the physics section (flip-speed slider committed on release,
  shadow slider, sound toggle) and the share section (generate, the share
  URL, the button's label and disabled state). The upload to the storage
  backend is outside; its answer arrives as an event.
 */
module Toolbar {
  import opened Wrappers
  import opened Types
  import opened Text

  const PlaceholderUrl := "https://flipsys-0-1.vercel.app?share=..."
  const SharePrefix := "?share="
  const CopiedDisplayMs: int := 2000
  const UploadFailedMessage := "Failed to upload PDF. Please try again."

  /** The toolbar's own state; `flipSpeedValue` is the slider's position before it is committed. */
  datatype ToolbarState = ToolbarState(
    isGenerating: bool,
    hasCopied: bool,
    deployUrl: string,
    flipSpeedValue: int)

  function InitialToolbar(config: Config): (t: ToolbarState)
    ensures !t.isGenerating && !t.hasCopied && t.deployUrl == PlaceholderUrl
    ensures t.flipSpeedValue == config.flipSpeed
  {
    ToolbarState(false, false, PlaceholderUrl, config.flipSpeed)
  }

  /** The props the toolbar reads; a missing prop is `None`. */
  datatype ToolbarProps = ToolbarProps(
    config: Config,
    pdfName: Option<string>,
    pdfSize: Option<nat>,
    pdfFile: Option<File>)

  /** JavaScript truthiness of an optional string: present and non-empty. */
  predicate Present(name: Option<string>) {
    name.Some? && name.value != ""
  }

  /**
    The file-name label, in UTF-16 code units as JavaScript measures and cuts
    strings: a name longer than twelve units keeps its first ten and gains
    `...`. The cut may fall between the two halves of a surrogate pair.
   */
  function FileNameLabel(name: Option<string>): (text: seq<CodeUnit>)
    ensures !Present(name) ==> text == Utf16("N/A")
    ensures Present(name) && |Utf16(name.value)| <= 12 ==> text == Utf16(name.value)
    ensures Present(name) && |Utf16(name.value)| > 12 ==>
      |text| == 13 && text[..10] == Utf16(name.value)[..10] && text[10..] == Utf16("...")
  {
    if Present(name) then
      var us := Utf16(name.value);
      if |us| > 12 then us[..10] + Utf16("...") else us
    else Utf16("N/A")
  }

  /**
    The size label: the literal `0KB` when the size is missing or zero (a
    falsy number), and otherwise `formatBytes` with its default two
    decimals. `None` stands for the literal; since the size is positive
    there, the label is always a scaled amount and never `formatBytes`'s
    own `0 B`.
   */
  function SizeText(size: Option<nat>): (l: Option<ByteLabel>)
    requires size.Some? ==> size.value < Pow1024(5)
    ensures l.None? <==> (size.None? || size.value == 0)
    ensures l.Some? ==> l.value == FormatBytes(size.value, 2) && l.value.Scaled?
  {
    match size
    case Some(bytes) =>
      if bytes == 0 then None
      else
        var r := FormatBytes(bytes, 2);
        assert r.Scaled?;
        Some(r)
    case None => None
  }

  /**
    The text the size cell shows, given the decimal rendering `numeral` of
    the scaled amount: `0KB` for a falsy size, else the numeral and the unit
    with no space between them — so it never contains a space when the
    numeral does not.
   */
  function SizeLabel(size: Option<nat>, numeral: string): (s: string)
    requires size.Some? ==> size.value < Pow1024(5)
    ensures SizeText(size).None? ==> s == "0KB"
    ensures SizeText(size).Some? ==> s == numeral + Units[SizeText(size).value.index]
    ensures (forall k :: 0 <= k < |numeral| ==> numeral[k] != ' ') ==>
      forall k :: 0 <= k < |s| ==> s[k] != ' '
  {
    match SizeText(size)
    case None => "0KB"
    case Some(l) => ByteLabelText(l, numeral)
  }

  /**
    For a name whose characters all lie in the Basic Multilingual Plane,
    counting code units is counting characters: the label is the name itself
    up to twelve characters, and otherwise its first ten characters and `...`.
   */
  lemma FileNameLabelOfBmp(n: string)
    requires n != "" && Bmp(n)
    ensures FileNameLabel(Some(n)) == Utf16(if |n| > 12 then n[..10] + "..." else n)
  {
    Utf16OfBmp(n);
    if |n| > 12 {
      BmpPrefix(n, 10);
      Utf16Append(n[..10], "...");
    }
  }

  /**
    A character beyond U+FFFF counts twice: such a character followed by
    eleven BMP characters is a twelve-character name of thirteen code units,
    so it is cut to that character, the next eight and `...`.
   */
  lemma {:induction false} AstralNameIsCut(c: char, rest: string)
    requires c as int >= 0x1_0000 && Bmp(rest) && |rest| == 11
    ensures |[c] + rest| == 12 && |Utf16([c] + rest)| == 13
    ensures FileNameLabel(Some([c] + rest)) == CharUnits(c) + Utf16(rest[..8]) + Utf16("...")
  {
    var n := [c] + rest;
    assert n[0] == c && n[1..] == rest;
    assert Utf16(n) == CharUnits(c) + Utf16(rest);
    Utf16OfBmp(rest);
    BmpPrefix(rest, 8);
    assert (CharUnits(c) + Utf16(rest))[..10] == CharUnits(c) + Utf16(rest)[..8];
  }

  /**
    The ten-unit cut can split a surrogate pair: after nine BMP characters, a
    character beyond U+FFFF leaves only its high surrogate in the label.
   */
  lemma {:induction false} CutCanSplitPair(head: string, c: char, tail: string)
    requires Bmp(head) && |head| == 9 && c as int >= 0x1_0000 && |tail| >= 2
    ensures var text := FileNameLabel(Some(head + [c] + tail));
      |text| == 13 && 0xD800 <= text[9] < 0xDC00
  {
    var n := head + [c] + tail;
    Utf16OfBmp(head);
    Utf16Append(head, [c] + tail);
    assert n == head + ([c] + tail);
    assert ([c] + tail)[0] == c && ([c] + tail)[1..] == tail;
    assert Utf16([c] + tail) == CharUnits(c) + Utf16(tail);
    assert Utf16(n)[9] == CharUnits(c)[0];
  }

  /** The code units of a BMP string's prefix are the prefix of its code units. */
  lemma BmpPrefix(s: string, k: nat)
    requires Bmp(s) && k <= |s|
    ensures Utf16(s[..k]) == Utf16(s)[..k]
  {
    assert s == s[..k] + s[k..];
    Utf16Append(s[..k], s[k..]);
    assert Bmp(s[..k]) by {
      forall i | 0 <= i < k
        ensures s[..k][i] as int < 0x1_0000
      {
        assert s[..k][i] == s[i];
      }
    }
    Utf16OfBmp(s[..k]);
  }

  /** The upload button offers to replace exactly when the name label shows a name. */
  function UploadButtonLabel(name: Option<string>): (text: string)
    ensures text == "REPLACE FILE" <==> Present(name)
    ensures text == "UPLOAD FILE" <==> !Present(name)
    ensures text == "UPLOAD FILE" ==> FileNameLabel(name) == Utf16("N/A")
  {
    if Present(name) then "REPLACE FILE" else "UPLOAD FILE"
  }

  // ---- physics ----

  /** The sound switch: only `useSound` changes, and it flips. */
  function ToggleSound(c: Config): (c': Config)
    ensures c'.useSound == !c.useSound
    ensures c' == c.(useSound := c'.useSound)
  {
    c.(useSound := !c.useSound)
  }

  lemma ToggleSoundTwice(c: Config)
    ensures ToggleSound(ToggleSound(c)) == c
  {
  }

  /** The shadow slider: only `shadowIntensity` changes. */
  function SetShadow(c: Config, value: int): (c': Config)
    ensures c'.shadowIntensity == value
    ensures c' == c.(shadowIntensity := value)
  {
    c.(shadowIntensity := value)
  }

  /** Dragging the flip-speed slider moves only the local value. */
  function SlideFlipSpeed(t: ToolbarState, value: int): (t': ToolbarState)
    ensures t'.flipSpeedValue == value
    ensures t' == t.(flipSpeedValue := value)
  {
    t.(flipSpeedValue := value)
  }

  /** Releasing the slider (mouse up or touch end) commits the local value as `flipSpeed`. */
  function CommitFlipSpeed(c: Config, t: ToolbarState): (c': Config)
    ensures c'.flipSpeed == t.flipSpeedValue
    ensures c' == c.(flipSpeed := t.flipSpeedValue)
  {
    c.(flipSpeed := t.flipSpeedValue)
  }

  function SlideAll(t: ToolbarState, values: seq<int>): ToolbarState
    decreases |values|
  {
    if |values| == 0 then t else SlideAll(SlideFlipSpeed(t, values[0]), values[1..])
  }

  /**
    However the slider was dragged, releasing it commits the last position it
    reached and leaves every other field of the configuration as it was.
   */
  lemma {:induction false} CommitTakesLastSlide(c: Config, t: ToolbarState, values: seq<int>)
    requires |values| > 0
    ensures CommitFlipSpeed(c, SlideAll(t, values)) == c.(flipSpeed := values[|values| - 1])
    ensures SlideAll(t, values) == t.(flipSpeedValue := values[|values| - 1])
    decreases |values|
  {
    if |values| > 1 {
      CommitTakesLastSlide(c, SlideFlipSpeed(t, values[0]), values[1..]);
    }
  }

  // ---- file picker ----

  /** `handleFileChange`: a first file of type PDF is uploaded and the share URL goes back to the placeholder. */
  function OnFileChange(t: ToolbarState, files: seq<File>): (r: (ToolbarState, Option<File>))
    ensures r.1 == FirstPdf(files)
    ensures r.1.Some? ==> r.0 == t.(deployUrl := PlaceholderUrl)
    ensures r.1.None? ==> r.0 == t
  {
    var chosen := FirstPdf(files);
    if chosen.Some? then (t.(deployUrl := PlaceholderUrl), chosen) else (t, None)
  }

  // ---- share ----

  /** The generate button is disabled without a file name or while generating. */
  function GenerateDisabled(name: Option<string>, isGenerating: bool): (d: bool)
    ensures isGenerating ==> d
    ensures !isGenerating ==> (d <==> UploadButtonLabel(name) == "UPLOAD FILE")
  {
    !Present(name) || isGenerating
  }

  /** The generate button's label, by priority. */
  function GenerateLabel(t: ToolbarState): (text: string)
    ensures t.isGenerating ==> text == "GENERATING..."
    ensures !t.isGenerating && t.hasCopied ==> text == "URL COPIED!"
    ensures !t.isGenerating && !t.hasCopied ==> text == "GENERATE & COPY"
  {
    if t.isGenerating then "GENERATING..." else if t.hasCopied then "URL COPIED!" else "GENERATE & COPY"
  }

  /**
    `handleGenerate`, up to the upload: without a file name or a file nothing
    happens; otherwise generating starts and the file goes to the upload.
   */
  function GenerateStart(t: ToolbarState, p: ToolbarProps): (r: (ToolbarState, Option<File>))
    ensures !Present(p.pdfName) || p.pdfFile.None? ==> r == (t, None)
    ensures Present(p.pdfName) && p.pdfFile.Some? ==> r == (t.(isGenerating := true), p.pdfFile)
  {
    if !Present(p.pdfName) || p.pdfFile.None? then (t, None)
    else (t.(isGenerating := true), p.pdfFile)
  }

  datatype ShareEffect = CopyToClipboard(url: string) | ArmCopiedReset(delay: int) | Alert(message: string)

  /** The share link for an uploaded record: the page origin, `?share=`, the record id. */
  function ShareUrl(origin: string, id: string): (url: string)
    ensures |url| == |origin| + |SharePrefix| + |id|
    ensures url[..|origin|] == origin
    ensures url[|origin|..|origin| + |SharePrefix|] == SharePrefix
    ensures url[|origin| + |SharePrefix|..] == id
  {
    origin + SharePrefix + id
  }

  /**
    `handleGenerate`, after the upload: on success the share URL is shown,
    copied and marked copied for two seconds; on failure an alert is raised.
    Either way generating ends.
   */
  function GenerateFinish(t: ToolbarState, uploadedId: Option<string>, origin: string): (r: (ToolbarState, seq<ShareEffect>))
    ensures !r.0.isGenerating && r.0.flipSpeedValue == t.flipSpeedValue
    ensures uploadedId.Some? ==>
      && r.0.deployUrl == ShareUrl(origin, uploadedId.value)
      && r.0.hasCopied
      && r.1 == [CopyToClipboard(r.0.deployUrl), ArmCopiedReset(CopiedDisplayMs)]
    ensures uploadedId.None? ==>
      && r.0 == t.(isGenerating := false)
      && r.1 == [Alert(UploadFailedMessage)]
  {
    match uploadedId
    case Some(id) =>
      var url := ShareUrl(origin, id);
      (t.(deployUrl := url, hasCopied := true, isGenerating := false), [CopyToClipboard(url), ArmCopiedReset(CopiedDisplayMs)])
    case None =>
      (t.(isGenerating := false), [Alert(UploadFailedMessage)])
  }

  /** The two-second timer after a copy clears the copied mark. */
  function CopiedResetFired(t: ToolbarState): (t': ToolbarState)
    ensures !t'.hasCopied && t' == t.(hasCopied := false)
  {
    t.(hasCopied := false)
  }

  // ---- the upload ----

  /** The row `uploadPDF` inserts into the `flipbooks` table. */
  datatype FlipbookRow = FlipbookRow(
    id: string,
    filePath: string,
    fileName: string,
    flipSpeed: int,
    shadowIntensity: int,
    useSound: bool)

  /** The backend's side of one upload: the random record id, and whether the storage upload and the insert succeed. */
  datatype Backend = Backend(id: string, storageOk: bool, insertOk: bool)

  /** What one upload leaves behind: the stored object's path, the inserted row, and the answer (the id, or null). */
  datatype UploadOutcome = UploadOutcome(stored: Option<string>, row: Option<FlipbookRow>, answer: Option<string>)

  /**
    `uploadPDF(file, config)`. The file is stored under `<id>/<name>`; then
    the row is built from `config`, which throws when no configuration was
    passed, and inserted. A failed storage upload or insert, or the throw,
    answers null; an object already stored stays stored.
   */
  function UploadPdf(file: File, config: Option<Config>, b: Backend): (o: UploadOutcome)
    ensures o.stored.Some? <==> b.storageOk
    ensures o.stored.Some? ==> o.stored.value == b.id + "/" + file.name
    ensures o.row.Some? <==> b.storageOk && config.Some? && b.insertOk
    ensures o.row.Some? ==>
      var c := config.value;
      o.row.value == FlipbookRow(b.id, b.id + "/" + file.name, file.name, c.flipSpeed, c.shadowIntensity, c.useSound)
    ensures o.answer.Some? <==> o.row.Some?
    ensures o.answer.Some? ==> o.answer.value == b.id
  {
    var path := b.id + "/" + file.name;
    if !b.storageOk then UploadOutcome(None, None, None)
    else match config
      case None => UploadOutcome(Some(path), None, None)
      case Some(c) =>
        if !b.insertOk then UploadOutcome(Some(path), None, None)
        else UploadOutcome(Some(path), Some(FlipbookRow(b.id, path, file.name, c.flipSpeed, c.shadowIntensity, c.useSound)), Some(b.id))
  }

  /** One click of the generate button, from the guard to the final state; `upload` is the upload it made, if any. */
  datatype GenerateRun = GenerateRun(next: ToolbarState, effects: seq<ShareEffect>, upload: Option<UploadOutcome>)

  /** `handleGenerate` with the configuration it hands to `uploadPDF`. */
  function GenerateWith(t: ToolbarState, p: ToolbarProps, config: Option<Config>, b: Backend, origin: string): (r: GenerateRun)
    ensures !Present(p.pdfName) || p.pdfFile.None? ==> r == GenerateRun(t, [], None)
    ensures Present(p.pdfName) && p.pdfFile.Some? ==>
      && r.upload == Some(UploadPdf(p.pdfFile.value, config, b))
      && (r.next, r.effects) == GenerateFinish(t.(isGenerating := true), r.upload.value.answer, origin)
  {
    var (started, file) := GenerateStart(t, p);
    match file
    case None => GenerateRun(t, [], None)
    case Some(f) =>
      var o := UploadPdf(f, config, b);
      var (finished, effects) := GenerateFinish(started, o.answer, origin);
      GenerateRun(finished, effects, Some(o))
  }

  /**
    The click as written: `uploadPDF(pdfFile)` passes no configuration, so
    whatever the backend does, no row is inserted, no URL is copied and the
    failure alert is raised; a working storage still keeps the object.
   */
  function GenerateAsWritten(t: ToolbarState, p: ToolbarProps, b: Backend, origin: string): (r: GenerateRun)
    ensures r.upload.Some? <==> Present(p.pdfName) && p.pdfFile.Some?
    ensures r.upload.Some? ==>
      && r.upload.value.row.None?
      && (r.upload.value.stored.Some? <==> b.storageOk)
      && r.effects == [Alert(UploadFailedMessage)]
      && r.next == t.(isGenerating := false)
  {
    GenerateWith(t, p, None, b, origin)
  }

  /**
    The click with the toolbar's configuration passed along: the share URL is
    shown and copied when both the storage upload and the insert succeed, the
    failure alert is raised otherwise, and the inserted row records the
    configuration's speed, shadow and sound.
   */
  function Generate(t: ToolbarState, p: ToolbarProps, b: Backend, origin: string): (r: GenerateRun)
    ensures r.upload.Some? <==> Present(p.pdfName) && p.pdfFile.Some?
    ensures r.upload.Some? ==>
      && !r.next.isGenerating
      && (b.storageOk && b.insertOk ==>
        && r.next.hasCopied
        && r.next.deployUrl == ShareUrl(origin, b.id)
        && r.effects == [CopyToClipboard(r.next.deployUrl), ArmCopiedReset(CopiedDisplayMs)]
        && r.upload.value.row.Some?
        && r.upload.value.row.value.flipSpeed == p.config.flipSpeed
        && r.upload.value.row.value.shadowIntensity == p.config.shadowIntensity
        && r.upload.value.row.value.useSound == p.config.useSound)
      && (!(b.storageOk && b.insertOk) ==>
        && r.next == t.(isGenerating := false)
        && r.effects == [Alert(UploadFailedMessage)])
  {
    GenerateWith(t, p, Some(p.config), b, origin)
  }

  /**
    One successful share, as the button shows it: GENERATE & COPY, then
    GENERATING... while the upload runs, then URL COPIED! with the share URL
    in the box, and GENERATE & COPY again once the timer fires; the URL stays.
   */
  lemma ShareCycle(t: ToolbarState, p: ToolbarProps, b: Backend, origin: string)
    requires !t.isGenerating && !t.hasCopied
    requires Present(p.pdfName) && p.pdfFile.Some?
    requires b.storageOk && b.insertOk
    ensures var started := GenerateStart(t, p).0;
      var finished := Generate(t, p, b, origin).next;
      && GenerateLabel(t) == "GENERATE & COPY"
      && GenerateLabel(started) == "GENERATING..."
      && GenerateDisabled(p.pdfName, started.isGenerating)
      && GenerateLabel(finished) == "URL COPIED!"
      && finished.deployUrl[|origin| + |SharePrefix|..] == b.id
      && GenerateLabel(CopiedResetFired(finished)) == "GENERATE & COPY"
      && CopiedResetFired(finished).deployUrl == finished.deployUrl
  {
  }
}
