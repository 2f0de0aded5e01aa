/**
  The touch gesture recogniser of the flipbook (`useFlipbookTouch`).

  One touch contact at a time is turned into a trace of synthetic pointer
  events for the page-flip renderer and into calls of the hook's callbacks.
  The hook's mutable refs become one immutable `Recognizer` value: the
  gesture record, the "is peeling" flag and the single pending
  animation-frame slot. Each touch handler, and the deferred frame callback,
  is a pure transition `Step(env, r, input)` returning the next recognizer
  and the effects it produced, in order.

  Clocks are inputs (`now` on start and move), the container rectangle is an
  input, and emitted pointer events are abstract records.
 */
module FlipbookTouch {
  import opened Wrappers

  /** Minimum travel, in px, before a touch becomes a peel. */
  const MinDrag: real := 8.0
  /** Fraction of the page width past which a released peel flips. */
  const FlipTrigger: real := 0.18
  /** Smoothed speed, in px/ms, past which a released peel flips. */
  const FlingVelocity: real := 0.45
  /** Fraction of the container width that counts as the left tap zone. */
  const EdgeTapZone: real := 0.5

  datatype Direction = Left | Right

  /** The gesture record of the source, one field per field. */
  datatype Gesture = Gesture(
    startX: real, startY: real,
    currentX: real, currentY: real,
    deltaX: real, deltaY: real,
    velocity: real,
    direction: Option<Direction>,
    isDragging: bool,
    startTime: real, lastTime: real,
    dragProgress: real)

  /** The all-zero record the hook starts with and resets to. */
  const Idle := Gesture(0.0, 0.0, 0.0, 0.0, 0.0, 0.0, 0.0, None, false, 0.0, 0.0, 0.0)

  /**
    The animation-frame callback a touch move schedules. It captured the
    move's touch coordinates, the page width of that render, and the gesture
    object; `deltaX` is that object's displacement and `live` says whether the
    object is still the current gesture (a touch start replaces it without
    cancelling the frame).
   */
  datatype Frame = Frame(clientX: real, clientY: real, deltaX: real, pageWidth: real, live: bool)

  datatype Recognizer = Recognizer(gesture: Gesture, peeling: bool, pending: Option<Frame>)

  const Initial := Recognizer(Idle, false, None)

  /** The container's bounding box, as far as the tap zones read it. */
  datatype Rect = Rect(left: real, width: real)

  /** The hook's options at the time of an event; `container` is `None` before mount. */
  datatype Env = Env(isEnabled: bool, pageWidth: real, container: Option<Rect>)

  datatype PointerKind = PointerDown | PointerMove | PointerUp | PointerCancel

  datatype Pointer = Pointer(kind: PointerKind, x: real, y: real, pressure: real)

  datatype Callback = FlipPrev | FlipNext | DragStart | DragEnd

  datatype Effect = Dispatch(pointer: Pointer) | Call(callback: Callback)

  datatype Input =
    | TouchStart(x: real, y: real, now: real)
    | TouchMove(x: real, y: real, now: real)
    | TouchEnd
    | TouchCancel
    | AnimationFrame

  datatype Transition = Transition(next: Recognizer, effects: seq<Effect>)

  function Abs(x: real): real {
    if x < 0.0 then -x else x
  }

  /** `Math.min(Math.max(value, min), max)`. */
  function Clamp(value: real, min: real, max: real): (r: real)
    requires min <= max
    ensures min <= r <= max
    ensures min <= value <= max ==> r == value
    ensures value < min ==> r == min
    ensures value > max ==> r == max
  {
    var lifted := if value > min then value else min;
    if lifted < max then lifted else max
  }

  /** `calculateDragProgress`: the displacement as a signed fraction of the page width. */
  function DragProgress(deltaX: real, pageWidth: real): (p: real)
    ensures -1.0 <= p <= 1.0
    ensures pageWidth <= 0.0 ==> p == 0.0
    ensures pageWidth > 0.0 && -pageWidth <= deltaX <= pageWidth ==> p * pageWidth == deltaX
    ensures pageWidth > 0.0 && deltaX > pageWidth ==> p == 1.0
    ensures pageWidth > 0.0 && deltaX < -pageWidth ==> p == -1.0
  {
    if pageWidth <= 0.0 then 0.0
    else
      QuotientBounds(deltaX, pageWidth);
      Clamp(deltaX / pageWidth, -1.0, 1.0)
  }

  lemma QuotientBounds(x: real, w: real)
    requires w > 0.0
    ensures x / w * w == x
    ensures x > w ==> x / w > 1.0
    ensures x < -w ==> x / w < -1.0
    ensures -w <= x <= w ==> -1.0 <= x / w <= 1.0
  {
  }

  /** Pressure of the pointermove a frame dispatches. */
  function PeelPressure(progress: real): (pressure: real)
    requires -1.0 <= progress <= 1.0
    ensures 0.5 <= pressure <= 1.0
    ensures pressure == 0.5 <==> progress == 0.0
    ensures pressure == 1.0 <==> Abs(progress) == 1.0
  {
    0.5 + Abs(progress) * 0.5
  }

  /** The fields `dispatchSyntheticPointer` puts into the `PointerEvent` it builds. */
  datatype PointerInit = PointerInit(
    bubbles: bool, cancelable: bool, composed: bool,
    clientX: real, clientY: real, screenX: real, screenY: real,
    pointerId: int, pointerType: string, isPrimary: bool,
    button: int, buttons: int, pressure: real,
    width: real, height: real, tiltX: int, tiltY: int)

  function EventInit(p: Pointer): (e: PointerInit)
    ensures e.clientX == e.screenX == p.x && e.clientY == e.screenY == p.y
    ensures e.pressure == p.pressure
    ensures e.pointerId == 1 && e.pointerType == "touch" && e.isPrimary
    ensures e.button == 0
    ensures e.buttons == 0 <==> p.kind == PointerUp
    ensures e.buttons == 1 <==> p.kind != PointerUp
  {
    PointerInit(
      true, true, true,
      p.x, p.y, p.x, p.y,
      1, "touch", true,
      0, if p.kind == PointerUp then 0 else 1, p.pressure,
      1.0, 1.0, 0, 0)
  }

  /** A frame that no longer belongs to the current gesture object. */
  function Orphan(pending: Option<Frame>): (r: Option<Frame>)
    ensures r.Some? <==> pending.Some?
    ensures r.Some? ==> r.value == pending.value.(live := false)
  {
    match pending
    case None => None
    case Some(f) => Some(f.(live := false))
  }

  /**
    `handleTouchStart`: a fresh gesture at the touch point and clock, peeling
    off. The pending frame is not cancelled; it now belongs to the old object.
   */
  function OnTouchStart(env: Env, r: Recognizer, x: real, y: real, now: real): (t: Transition)
    ensures !env.isEnabled ==> t == Transition(r, [])
    ensures env.isEnabled ==>
      && t.effects == []
      && t.next.gesture == Gesture(x, y, x, y, 0.0, 0.0, 0.0, None, false, now, now, 0.0)
      && !t.next.peeling
      && (t.next.pending.Some? <==> r.pending.Some?)
      && (t.next.pending.Some? ==> t.next.pending.value == r.pending.value.(live := false))
  {
    if !env.isEnabled then Transition(r, [])
    else
      Transition(
        Recognizer(Gesture(x, y, x, y, 0.0, 0.0, 0.0, None, false, now, now, 0.0), false, Orphan(r.pending)),
        [])
  }

  /** The velocity update of a move: an exponential average of |deltaX| / deltaTime. */
  function SmoothVelocity(velocity: real, deltaX: real, deltaTime: real): (v: real)
    ensures deltaTime <= 0.0 ==> v == velocity
    ensures deltaTime > 0.0 ==> v * deltaTime == 0.7 * velocity * deltaTime + 0.3 * Abs(deltaX)
    ensures velocity >= 0.0 ==> v >= 0.0
  {
    if deltaTime > 0.0 then velocity * 0.7 + (Abs(deltaX) / deltaTime) * 0.3 else velocity
  }

  /** The direction update of a move: set only when the move is more horizontal than vertical. */
  function NextDirection(direction: Option<Direction>, deltaX: real, deltaY: real): (d: Option<Direction>)
    ensures Abs(deltaX) <= Abs(deltaY) ==> d == direction
    ensures Abs(deltaX) > Abs(deltaY) ==> (d == Some(Right) <==> deltaX > 0.0)
    ensures Abs(deltaX) > Abs(deltaY) ==> (d == Some(Left) <==> deltaX < 0.0)
  {
    if Abs(deltaX) > Abs(deltaY) then Some(if deltaX > 0.0 then Right else Left) else direction
  }

  /** True when the travel from the start exceeds `MinDrag` (squares compared, no square root). */
  predicate BeyondMinDrag(deltaX: real, deltaY: real) {
    deltaX * deltaX + deltaY * deltaY > MinDrag * MinDrag
  }

  /**
    `handleTouchMove`: positions, velocity and direction are updated; the
    first move past `MinDrag` starts the peel (pointerdown at the start point,
    then `onDragStart`); every move of a peel replaces the pending frame.
    The drag progress itself is left to the frame.
   */
  function OnTouchMove(env: Env, r: Recognizer, x: real, y: real, now: real): (t: Transition)
    ensures !env.isEnabled ==> t == Transition(r, [])
    ensures env.isEnabled ==>
      var g, g' := r.gesture, t.next.gesture;
      && g'.currentX == x && g'.currentY == y
      && g'.deltaX == x - g.startX && g'.deltaY == y - g.startY
      && g'.startX == g.startX && g'.startY == g.startY && g'.startTime == g.startTime
      && g'.lastTime == now
      && g'.velocity == SmoothVelocity(g.velocity, g'.deltaX, now - g.lastTime)
      && g'.direction == NextDirection(g.direction, g'.deltaX, g'.deltaY)
      && g'.dragProgress == g.dragProgress
      && (g'.isDragging <==> g.isDragging || BeyondMinDrag(g'.deltaX, g'.deltaY))
      && (t.next.peeling <==> r.peeling || (!g.isDragging && BeyondMinDrag(g'.deltaX, g'.deltaY)))
    ensures env.isEnabled && !r.gesture.isDragging && BeyondMinDrag(x - r.gesture.startX, y - r.gesture.startY) ==>
      t.effects == [Dispatch(Pointer(PointerDown, r.gesture.startX, r.gesture.startY, 0.5)), Call(DragStart)]
    ensures !(env.isEnabled && !r.gesture.isDragging && BeyondMinDrag(x - r.gesture.startX, y - r.gesture.startY)) ==>
      t.effects == []
    ensures env.isEnabled && t.next.gesture.isDragging && t.next.peeling ==>
      t.next.pending == Some(Frame(x, y, x - r.gesture.startX, env.pageWidth, true))
    ensures env.isEnabled && !(t.next.gesture.isDragging && t.next.peeling) ==> t.next.pending == r.pending
  {
    if !env.isEnabled then Transition(r, [])
    else
      var g := r.gesture;
      var dx := x - g.startX;
      var dy := y - g.startY;
      var starts := !g.isDragging && BeyondMinDrag(dx, dy);
      var dragging := g.isDragging || starts;
      var peeling := r.peeling || starts;
      var g' := g.(
        currentX := x, currentY := y,
        deltaX := dx, deltaY := dy,
        velocity := SmoothVelocity(g.velocity, dx, now - g.lastTime),
        direction := NextDirection(g.direction, dx, dy),
        isDragging := dragging,
        lastTime := now);
      var pending := if dragging && peeling then Some(Frame(x, y, dx, env.pageWidth, true)) else r.pending;
      var effects := if starts then [Dispatch(Pointer(PointerDown, g.startX, g.startY, 0.5)), Call(DragStart)] else [];
      Transition(Recognizer(g', peeling, pending), effects)
  }

  /**
    The `requestAnimationFrame` callback: the drag progress of the captured
    displacement is stored into the gesture it belongs to (if that is still
    the current one) and a pointermove is dispatched at the captured touch
    point. With no frame pending nothing happens.
   */
  function OnFrame(r: Recognizer): (t: Transition)
    ensures r.pending.None? ==> t == Transition(r, [])
    ensures r.pending.Some? ==>
      var f := r.pending.value;
      var p := DragProgress(f.deltaX, f.pageWidth);
      && t.next.pending.None?
      && t.next.peeling == r.peeling
      && t.next.gesture == (if f.live then r.gesture.(dragProgress := p) else r.gesture)
      && t.effects == [Dispatch(Pointer(PointerMove, f.clientX, f.clientY, PeelPressure(p)))]
  {
    match r.pending
    case None => Transition(r, [])
    case Some(f) =>
      var p := DragProgress(f.deltaX, f.pageWidth);
      var g := if f.live then r.gesture.(dragProgress := p) else r.gesture;
      Transition(Recognizer(g, r.peeling, None), [Dispatch(Pointer(PointerMove, f.clientX, f.clientY, PeelPressure(p)))])
  }

  /** The release decision of a peel: past the distance trigger or the fling speed. */
  predicate ShouldFlip(g: Gesture) {
    Abs(g.dragProgress) > FlipTrigger || g.velocity > FlingVelocity
  }

  /**
    The effects of releasing a peel, before `onDragEnd`: a committed peel is
    carried 1.5 page widths past the start in the swipe direction and released
    there, then the page is flipped (a left swipe goes forward); otherwise the
    peel is carried back to the start point and released.
   */
  function PeelRelease(g: Gesture, pageWidth: real): (fx: seq<Effect>)
    ensures ShouldFlip(g) && g.direction.Some? ==>
      var tx := if g.direction.value == Right then g.startX + pageWidth * 1.5 else g.startX - pageWidth * 1.5;
      fx == [Dispatch(Pointer(PointerMove, tx, g.currentY, 1.0)),
             Dispatch(Pointer(PointerUp, tx, g.currentY, 0.0)),
             Call(if g.direction.value == Left then FlipNext else FlipPrev)]
    ensures !(ShouldFlip(g) && g.direction.Some?) ==>
      fx == [Dispatch(Pointer(PointerMove, g.startX, g.startY, 0.0)),
             Dispatch(Pointer(PointerUp, g.startX, g.startY, 0.0))]
  {
    if ShouldFlip(g) && g.direction.Some? then
      var tx := if g.direction.value == Right then g.startX + pageWidth * 1.5 else g.startX - pageWidth * 1.5;
      [Dispatch(Pointer(PointerMove, tx, g.currentY, 1.0)),
       Dispatch(Pointer(PointerUp, tx, g.currentY, 0.0)),
       Call(if g.direction.value == Left then FlipNext else FlipPrev)]
    else
      [Dispatch(Pointer(PointerMove, g.startX, g.startY, 0.0)),
       Dispatch(Pointer(PointerUp, g.startX, g.startY, 0.0))]
  }

  /**
    A touch that never became a drag: judged by where it started, relative to
    the container, and only once mounted with a positive page width. The exact
    middle flips neither way.
   */
  function TapCalls(startX: real, env: Env): (fx: seq<Effect>)
    ensures env.container.None? || env.pageWidth <= 0.0 ==> fx == []
    ensures env.container.Some? && env.pageWidth > 0.0 ==>
      var tapX, w := startX - env.container.value.left, env.container.value.width;
      && (fx == [Call(FlipPrev)] <==> tapX < w / 2.0)
      && (fx == [Call(FlipNext)] <==> tapX > w / 2.0)
      && (fx == [] <==> tapX == w / 2.0)
  {
    match env.container
    case None => []
    case Some(rect) =>
      if env.pageWidth > 0.0 then
        var tapX := startX - rect.left;
        var edgeZone := rect.width * EdgeTapZone;
        if tapX < edgeZone then [Call(FlipPrev)]
        else if tapX > rect.width - edgeZone then [Call(FlipNext)]
        else []
      else []
  }

  /**
    `handleTouchEnd`: the pending frame is cancelled, so a peel is judged on
    the progress of the last frame that ran; a peel is released and ends with
    `onDragEnd`; a touch that never dragged is a tap. The recognizer is reset.
   */
  function OnTouchEnd(env: Env, r: Recognizer): (t: Transition)
    ensures !env.isEnabled ==> t == Transition(r, [])
    ensures env.isEnabled ==> t.next == Initial
    ensures env.isEnabled && r.peeling ==> t.effects == PeelRelease(r.gesture, env.pageWidth) + [Call(DragEnd)]
    ensures env.isEnabled && !r.peeling && !r.gesture.isDragging ==> t.effects == TapCalls(r.gesture.startX, env)
    ensures env.isEnabled && !r.peeling && r.gesture.isDragging ==> t.effects == []
  {
    if !env.isEnabled then Transition(r, [])
    else
      var effects :=
        if r.peeling then PeelRelease(r.gesture, env.pageWidth) + [Call(DragEnd)]
        else if !r.gesture.isDragging then TapCalls(r.gesture.startX, env)
        else [];
      Transition(Initial, effects)
  }

  /**
    `handleTouchCancel`: the pending frame is cancelled; a peel ends with one
    pointercancel at the last touch point and `onDragEnd`. The recognizer is reset.
   */
  function OnTouchCancel(env: Env, r: Recognizer): (t: Transition)
    ensures !env.isEnabled ==> t == Transition(r, [])
    ensures env.isEnabled ==> t.next == Initial
    ensures env.isEnabled && r.peeling ==>
      t.effects == [Dispatch(Pointer(PointerCancel, r.gesture.currentX, r.gesture.currentY, 0.0)), Call(DragEnd)]
    ensures env.isEnabled && !r.peeling ==> t.effects == []
  {
    if !env.isEnabled then Transition(r, [])
    else if r.peeling then
      Transition(Initial, [Dispatch(Pointer(PointerCancel, r.gesture.currentX, r.gesture.currentY, 0.0)), Call(DragEnd)])
    else Transition(Initial, [])
  }

  /**
    One event, as the hook handles it. With the hook disabled, only an
    already requested frame can still do anything; enabled, a touch start
    emits nothing, and an end or cancel always leaves the zero record.
   */
  function Step(env: Env, r: Recognizer, input: Input): (t: Transition)
    ensures !env.isEnabled && !input.AnimationFrame? ==> t == Transition(r, [])
    ensures env.isEnabled && input.TouchStart? ==> t.effects == []
    ensures env.isEnabled && (input.TouchEnd? || input.TouchCancel?) ==> t.next == Initial
  {
    match input
    case TouchStart(x, y, now) => OnTouchStart(env, r, x, y, now)
    case TouchMove(x, y, now) => OnTouchMove(env, r, x, y, now)
    case TouchEnd => OnTouchEnd(env, r)
    case TouchCancel => OnTouchCancel(env, r)
    case AnimationFrame => OnFrame(r)
  }

  /** A sequence of events under fixed options; the effects are concatenated in order. */
  function Run(env: Env, r: Recognizer, inputs: seq<Input>): Transition
    decreases |inputs|
  {
    if |inputs| == 0 then Transition(r, [])
    else
      var t := Step(env, r, inputs[0]);
      var rest := Run(env, t.next, inputs[1..]);
      Transition(rest.next, t.effects + rest.effects)
  }

  /**
    What stays true of the recognizer between events: the peeling flag and
    `isDragging` agree; the progress is a fraction in [-1, 1]; the velocity is
    non-negative; and a frame still bound to the current gesture exists only
    during a peel and carries the gesture's current displacement, so running it
    later is the same as running it now.
   */
  ghost predicate Valid(r: Recognizer) {
    && r.gesture.isDragging == r.peeling
    && -1.0 <= r.gesture.dragProgress <= 1.0
    && r.gesture.velocity >= 0.0
    && (r.pending.Some? && r.pending.value.live ==> r.peeling && r.pending.value.deltaX == r.gesture.deltaX)
  }

  lemma InitialValid()
    ensures Valid(Initial)
  {
  }

  lemma StepValid(env: Env, r: Recognizer, input: Input)
    requires Valid(r)
    ensures Valid(Step(env, r, input).next)
  {
  }

  lemma {:induction false} RunValid(env: Env, r: Recognizer, inputs: seq<Input>)
    requires Valid(r)
    ensures Valid(Run(env, r, inputs).next)
    decreases |inputs|
  {
    if |inputs| > 0 {
      StepValid(env, r, inputs[0]);
      RunValid(env, Step(env, r, inputs[0]).next, inputs[1..]);
    }
  }

  /** The drag progress any reachable recognizer holds lies in [-1, 1]. */
  lemma ProgressBounded(env: Env, inputs: seq<Input>)
    ensures -1.0 <= Run(env, Initial, inputs).next.gesture.dragProgress <= 1.0
    ensures Run(env, Initial, inputs).next.gesture.velocity >= 0.0
  {
    InitialValid();
    RunValid(env, Initial, inputs);
  }

  /**
    With the hook disabled and no frame pending, no sequence of events
    changes anything or emits anything.
   */
  lemma {:induction false} DisabledRunInert(env: Env, r: Recognizer, inputs: seq<Input>)
    requires !env.isEnabled && r.pending.None?
    ensures Run(env, r, inputs) == Transition(r, [])
    decreases |inputs|
  {
    if |inputs| > 0 {
      DisabledRunInert(env, r, inputs[1..]);
    }
  }

  // ---- counting pointer events and callbacks in a trace ----

  function CountDowns(fx: seq<Effect>): nat {
    if |fx| == 0 then 0
    else (if fx[0].Dispatch? && fx[0].pointer.kind == PointerDown then 1 else 0) + CountDowns(fx[1..])
  }

  predicate IsTerminal(e: Effect) {
    e.Dispatch? && (e.pointer.kind == PointerUp || e.pointer.kind == PointerCancel)
  }

  function CountTerminals(fx: seq<Effect>): nat {
    if |fx| == 0 then 0 else (if IsTerminal(fx[0]) then 1 else 0) + CountTerminals(fx[1..])
  }

  function CountCalls(fx: seq<Effect>, c: Callback): nat {
    if |fx| == 0 then 0 else (if fx[0] == Call(c) then 1 else 0) + CountCalls(fx[1..], c)
  }

  lemma {:induction false} CountsAppend(a: seq<Effect>, b: seq<Effect>)
    ensures CountDowns(a + b) == CountDowns(a) + CountDowns(b)
    ensures CountTerminals(a + b) == CountTerminals(a) + CountTerminals(b)
    ensures forall c :: CountCalls(a + b, c) == CountCalls(a, c) + CountCalls(b, c)
  {
    if |a| > 0 {
      assert (a + b)[1..] == a[1..] + b;
      CountsAppend(a[1..], b);
    } else {
      assert a + b == b;
    }
  }

  lemma CountsOfOne(e: Effect)
    ensures CountDowns([e]) == (if e.Dispatch? && e.pointer.kind == PointerDown then 1 else 0)
    ensures CountTerminals([e]) == (if IsTerminal(e) then 1 else 0)
    ensures forall c :: CountCalls([e], c) == (if e == Call(c) then 1 else 0)
  {
    assert [e][1..] == [];
  }

  lemma CountsOfTwo(a: Effect, b: Effect)
    ensures CountDowns([a, b]) == CountDowns([a]) + CountDowns([b])
    ensures CountTerminals([a, b]) == CountTerminals([a]) + CountTerminals([b])
    ensures forall c :: CountCalls([a, b], c) == CountCalls([a], c) + CountCalls([b], c)
  {
    assert [a, b] == [a] + [b];
    CountsAppend([a], [b]);
  }

  lemma CountsOfThree(a: Effect, b: Effect, c: Effect)
    ensures CountDowns([a, b, c]) == CountDowns([a]) + CountDowns([b]) + CountDowns([c])
    ensures CountTerminals([a, b, c]) == CountTerminals([a]) + CountTerminals([b]) + CountTerminals([c])
    ensures forall k :: CountCalls([a, b, c], k) == CountCalls([a], k) + CountCalls([b], k) + CountCalls([c], k)
  {
    assert [a, b, c] == [a] + [b, c];
    CountsAppend([a], [b, c]);
    CountsOfTwo(b, c);
  }

  /** The counts of a drag start's pair of effects, and of a peel's closing effects. */
  lemma CountsOfPeelEdges(env: Env, r: Recognizer)
    ensures var fx := [Dispatch(Pointer(PointerDown, r.gesture.startX, r.gesture.startY, 0.5)), Call(DragStart)];
      && CountDowns(fx) == 1 && CountTerminals(fx) == 0
      && CountCalls(fx, DragStart) == 1 && CountCalls(fx, DragEnd) == 0
    ensures var fx := [Dispatch(Pointer(PointerCancel, r.gesture.currentX, r.gesture.currentY, 0.0)), Call(DragEnd)];
      && CountDowns(fx) == 0 && CountTerminals(fx) == 1
      && CountCalls(fx, DragStart) == 0 && CountCalls(fx, DragEnd) == 1
    ensures var fx := PeelRelease(r.gesture, env.pageWidth) + [Call(DragEnd)];
      && CountDowns(fx) == 0 && CountTerminals(fx) == 1
      && CountCalls(fx, DragStart) == 0 && CountCalls(fx, DragEnd) == 1
  {
    var g := r.gesture;
    var down := Dispatch(Pointer(PointerDown, g.startX, g.startY, 0.5));
    CountsOfTwo(down, Call(DragStart));
    CountsOfOne(down);
    CountsOfOne(Call(DragStart));
    var cancel := Dispatch(Pointer(PointerCancel, g.currentX, g.currentY, 0.0));
    CountsOfTwo(cancel, Call(DragEnd));
    CountsOfOne(cancel);
    CountsOfOne(Call(DragEnd));
    var rel := PeelRelease(g, env.pageWidth);
    CountsAppend(rel, [Call(DragEnd)]);
    if ShouldFlip(g) && g.direction.Some? {
      var tx := if g.direction.value == Right then g.startX + env.pageWidth * 1.5 else g.startX - env.pageWidth * 1.5;
      var a, b, c := Dispatch(Pointer(PointerMove, tx, g.currentY, 1.0)), Dispatch(Pointer(PointerUp, tx, g.currentY, 0.0)),
        Call(if g.direction.value == Left then FlipNext else FlipPrev);
      CountsOfThree(a, b, c);
      CountsOfOne(a);
      CountsOfOne(b);
      CountsOfOne(c);
    } else {
      var a, b := Dispatch(Pointer(PointerMove, g.startX, g.startY, 0.0)), Dispatch(Pointer(PointerUp, g.startX, g.startY, 0.0));
      CountsOfTwo(a, b);
      CountsOfOne(a);
      CountsOfOne(b);
    }
  }

  function Open(r: Recognizer): nat {
    if r.peeling then 1 else 0
  }

  /**
    Every event except a touch start in the middle of a peel keeps the books
    balanced: the pointerdowns emitted so far, counted with the peel still
    open before, equal the terminal events emitted counted with the peel open
    after. The same holds of `onDragStart` and `onDragEnd`.
   */
  lemma StepBalanced(env: Env, r: Recognizer, input: Input)
    requires Valid(r)
    requires !(input.TouchStart? && env.isEnabled && r.peeling)
    ensures var t := Step(env, r, input);
      && CountDowns(t.effects) + Open(r) == CountTerminals(t.effects) + Open(t.next)
      && CountCalls(t.effects, DragStart) + Open(r) == CountCalls(t.effects, DragEnd) + Open(t.next)
  {
    CountsOfPeelEdges(env, r);
    match input
    case TouchStart(x, y, now) =>
    case TouchMove(x, y, now) =>
    case AnimationFrame =>
      if r.pending.Some? {
        var f := r.pending.value;
        CountsOfOne(Dispatch(Pointer(PointerMove, f.clientX, f.clientY, PeelPressure(DragProgress(f.deltaX, f.pageWidth)))));
      }
    case TouchCancel =>
    case TouchEnd =>
  }

  /**
    While a gesture goes on (only moves and frames), at most one pointerdown
    is emitted, and none once the gesture is dragging.
   */
  lemma {:induction false} OneDownPerGesture(env: Env, r: Recognizer, inputs: seq<Input>)
    requires forall i :: 0 <= i < |inputs| ==> inputs[i].TouchMove? || inputs[i].AnimationFrame?
    ensures CountDowns(Run(env, r, inputs).effects) <= 1
    ensures r.gesture.isDragging ==> CountDowns(Run(env, r, inputs).effects) == 0
    decreases |inputs|
  {
    if |inputs| > 0 {
      var t := Step(env, r, inputs[0]);
      OneDownPerGesture(env, t.next, inputs[1..]);
      CountsAppend(t.effects, Run(env, t.next, inputs[1..]).effects);
      if CountDowns(t.effects) > 0 {
        assert t.next.gesture.isDragging;
      }
    }
  }

  // ---- the touch start in the middle of a peel ----

  /**
    The event loop with a touch start that arrives during a peel first closing
    that peel as a touch cancel would; every other event is handled as `Step`.
   */
  function StepClosed(env: Env, r: Recognizer, input: Input): (t: Transition)
    ensures !(input.TouchStart? && env.isEnabled && r.peeling) ==> t == Step(env, r, input)
    ensures input.TouchStart? && env.isEnabled && r.peeling ==>
      && t.effects == [Dispatch(Pointer(PointerCancel, r.gesture.currentX, r.gesture.currentY, 0.0)), Call(DragEnd)]
      && t.next == Step(env, Initial, input).next
  {
    if input.TouchStart? && env.isEnabled && r.peeling then
      var c := OnTouchCancel(env, r);
      var s := Step(env, c.next, input);
      Transition(s.next, c.effects + s.effects)
    else Step(env, r, input)
  }

  function RunClosed(env: Env, r: Recognizer, inputs: seq<Input>): Transition
    decreases |inputs|
  {
    if |inputs| == 0 then Transition(r, [])
    else
      var t := StepClosed(env, r, inputs[0]);
      var rest := RunClosed(env, t.next, inputs[1..]);
      Transition(rest.next, t.effects + rest.effects)
  }

  lemma StepClosedBalanced(env: Env, r: Recognizer, input: Input)
    requires Valid(r)
    ensures var t := StepClosed(env, r, input);
      && Valid(t.next)
      && CountDowns(t.effects) + Open(r) == CountTerminals(t.effects) + Open(t.next)
      && CountCalls(t.effects, DragStart) + Open(r) == CountCalls(t.effects, DragEnd) + Open(t.next)
  {
    if input.TouchStart? && env.isEnabled && r.peeling {
      InitialValid();
      CountsOfPeelEdges(env, r);
    } else {
      StepValid(env, r, input);
      StepBalanced(env, r, input);
    }
  }

  /**
    With touch starts closing an open peel, every pointerdown of a run is
    answered by exactly one pointerup or pointercancel, and every
    `onDragStart` by exactly one `onDragEnd`, except for the one peel that may
    still be open at the end.
   */
  lemma {:induction false} RunClosedBalanced(env: Env, r: Recognizer, inputs: seq<Input>)
    requires Valid(r)
    ensures var t := RunClosed(env, r, inputs);
      && Valid(t.next)
      && CountDowns(t.effects) + Open(r) == CountTerminals(t.effects) + Open(t.next)
      && CountCalls(t.effects, DragStart) + Open(r) == CountCalls(t.effects, DragEnd) + Open(t.next)
    decreases |inputs|
  {
    if |inputs| > 0 {
      var t := StepClosed(env, r, inputs[0]);
      StepClosedBalanced(env, r, inputs[0]);
      RunClosedBalanced(env, t.next, inputs[1..]);
      CountsAppend(t.effects, RunClosed(env, t.next, inputs[1..]).effects);
    }
  }

  /**
    As written, a second finger touching down during a peel (the hook reads
    `touches[0]`, the first finger) drops the peel: a pointerdown and an
    `onDragStart` with no terminal pointer event and no `onDragEnd`, and the
    peeling flag is already off.
   */
  lemma SecondTouchStrandsPeel()
    ensures
      var env := Env(true, 300.0, Some(Rect(0.0, 400.0)));
      var t := Run(env, Initial, [TouchStart(100.0, 200.0, 0.0), TouchMove(60.0, 205.0, 50.0), TouchStart(60.0, 205.0, 60.0)]);
      && CountDowns(t.effects) == 1
      && CountTerminals(t.effects) == 0
      && CountCalls(t.effects, DragStart) == 1
      && CountCalls(t.effects, DragEnd) == 0
      && !t.next.peeling
  {
    var env := Env(true, 300.0, Some(Rect(0.0, 400.0)));
    var inputs := [TouchStart(100.0, 200.0, 0.0), TouchMove(60.0, 205.0, 50.0), TouchStart(60.0, 205.0, 60.0)];
    var t1 := Step(env, Initial, inputs[0]);
    var t2 := Step(env, t1.next, inputs[1]);
    assert BeyondMinDrag(-40.0, 5.0);
    var t3 := Step(env, t2.next, inputs[2]);
    assert inputs[1..][1..] == [inputs[2]] && inputs[1..][1..][1..] == [];
    assert Run(env, Initial, inputs).effects == t1.effects + t2.effects + t3.effects;
    CountsOfPeelEdges(env, t1.next);
    assert t1.effects + t2.effects + t3.effects == t2.effects;
  }

  // ---- scenarios ----

  /**
    A 40 px swipe to the left on a 300 px page, released slowly after the
    frame has run, snaps back: progress -0.133, no flip.
   */
  lemma ShortSlowSwipeSnapsBack()
    ensures
      var env := Env(true, 300.0, Some(Rect(0.0, 400.0)));
      var t := Run(env, Initial, [TouchStart(100.0, 200.0, 0.0), TouchMove(60.0, 205.0, 100.0), AnimationFrame, TouchEnd]);
      t.effects == [Dispatch(Pointer(PointerDown, 100.0, 200.0, 0.5)), Call(DragStart),
                    Dispatch(Pointer(PointerMove, 60.0, 205.0, 0.5 + (40.0 / 300.0) * 0.5)),
                    Dispatch(Pointer(PointerMove, 100.0, 200.0, 0.0)), Dispatch(Pointer(PointerUp, 100.0, 200.0, 0.0)),
                    Call(DragEnd)]
  {
    var env := Env(true, 300.0, Some(Rect(0.0, 400.0)));
    var inputs := [TouchStart(100.0, 200.0, 0.0), TouchMove(60.0, 205.0, 100.0), AnimationFrame, TouchEnd];
    var t1 := Step(env, Initial, inputs[0]);
    var t2 := Step(env, t1.next, inputs[1]);
    assert BeyondMinDrag(-40.0, 5.0);
    assert t2.next.gesture.velocity == 0.12;
    var t3 := Step(env, t2.next, inputs[2]);
    assert t3.next.gesture.dragProgress == -40.0 / 300.0;
    var t4 := Step(env, t3.next, inputs[3]);
    assert !ShouldFlip(t3.next.gesture);
    assert inputs[1..][1..][1..][1..] == [];
    assert Run(env, Initial, inputs).effects == t1.effects + t2.effects + t3.effects + t4.effects;
  }

  /**
    A fast 60 px swipe to the left in 50 ms: the smoothed velocity after a
    single move is only 0.36 px/ms, so it flips forward when the frame has run
    (progress -0.2) and snaps back when the frame has not.
   */
  lemma FastSwipeFlipsAfterFrame()
    ensures
      var env := Env(true, 300.0, Some(Rect(0.0, 400.0)));
      var t := Run(env, Initial, [TouchStart(100.0, 200.0, 0.0), TouchMove(40.0, 205.0, 50.0), AnimationFrame, TouchEnd]);
      t.effects == [Dispatch(Pointer(PointerDown, 100.0, 200.0, 0.5)), Call(DragStart),
                    Dispatch(Pointer(PointerMove, 40.0, 205.0, 0.6)),
                    Dispatch(Pointer(PointerMove, -350.0, 205.0, 1.0)), Dispatch(Pointer(PointerUp, -350.0, 205.0, 0.0)),
                    Call(FlipNext), Call(DragEnd)]
    ensures
      var env := Env(true, 300.0, Some(Rect(0.0, 400.0)));
      var t := Run(env, Initial, [TouchStart(100.0, 200.0, 0.0), TouchMove(40.0, 205.0, 50.0), TouchEnd]);
      t.effects == [Dispatch(Pointer(PointerDown, 100.0, 200.0, 0.5)), Call(DragStart),
                    Dispatch(Pointer(PointerMove, 100.0, 200.0, 0.0)), Dispatch(Pointer(PointerUp, 100.0, 200.0, 0.0)),
                    Call(DragEnd)]
  {
    var env := Env(true, 300.0, Some(Rect(0.0, 400.0)));
    var inputs := [TouchStart(100.0, 200.0, 0.0), TouchMove(40.0, 205.0, 50.0), AnimationFrame, TouchEnd];
    var t1 := Step(env, Initial, inputs[0]);
    var t2 := Step(env, t1.next, inputs[1]);
    assert BeyondMinDrag(-60.0, 5.0);
    assert t2.next.gesture.velocity == 0.36;
    assert t2.next.gesture.direction == Some(Left);
    var t3 := Step(env, t2.next, inputs[2]);
    assert t3.next.gesture.dragProgress == -0.2;
    assert ShouldFlip(t3.next.gesture);
    var t4 := Step(env, t3.next, inputs[3]);
    assert inputs[1..][1..][1..][1..] == [];
    assert Run(env, Initial, inputs).effects == t1.effects + t2.effects + t3.effects + t4.effects;

    var skip := [TouchStart(100.0, 200.0, 0.0), TouchMove(40.0, 205.0, 50.0), TouchEnd];
    assert !ShouldFlip(t2.next.gesture);
    var u3 := Step(env, t2.next, skip[2]);
    assert skip[1..][1..][1..] == [];
    assert Run(env, Initial, skip).effects == t1.effects + t2.effects + u3.effects;
  }

  /** Taps at 10 % and 90 % of a 400 px container flip backward and forward. */
  lemma TapZones()
    ensures
      var env := Env(true, 300.0, Some(Rect(0.0, 400.0)));
      && Run(env, Initial, [TouchStart(40.0, 100.0, 0.0), TouchEnd]).effects == [Call(FlipPrev)]
      && Run(env, Initial, [TouchStart(360.0, 100.0, 0.0), TouchEnd]).effects == [Call(FlipNext)]
      && Run(env, Initial, [TouchStart(200.0, 100.0, 0.0), TouchEnd]).effects == []
  {
    var env := Env(true, 300.0, Some(Rect(0.0, 400.0)));
    var a := [TouchStart(40.0, 100.0, 0.0), TouchEnd];
    var b := [TouchStart(360.0, 100.0, 0.0), TouchEnd];
    var c := [TouchStart(200.0, 100.0, 0.0), TouchEnd];
    assert a[1..][1..] == [] && b[1..][1..] == [] && c[1..][1..] == [];
  }
}
