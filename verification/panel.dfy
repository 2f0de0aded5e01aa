/**
  The drag-resizable bottom panel (`ResizablePanel`): a mouse-down on the
  handle starts a drag, mouse moves resize the panel within its bounds
  measured from where the drag started, and a mouse-up ends the drag.
  Listener attachment and cursor styling are left out; every event is
  delivered to the transition functions directly.
 */
module ResizablePanel {

  /** The props with their defaults: 120, 400 and 220 pixels. */
  datatype Bounds = Bounds(minHeight: real, maxHeight: real, defaultHeight: real)

  const DefaultBounds := Bounds(120.0, 400.0, 220.0)

  datatype Panel = Panel(height: real, isDragging: bool, dragStartY: real, dragStartHeight: real)

  /** The first render: the default height as given (not clamped), no drag. */
  function InitialPanel(b: Bounds): (p: Panel)
    ensures p.height == b.defaultHeight && !p.isDragging
    ensures p.dragStartY == 0.0 && p.dragStartHeight == 0.0
  {
    Panel(b.defaultHeight, false, 0.0, 0.0)
  }

  /**
    `Math.max(minHeight, Math.min(maxHeight, v))`: inside the bounds when they
    are ordered; with crossed bounds the minimum wins.
   */
  function ClampHeight(v: real, b: Bounds): (h: real)
    ensures h >= b.minHeight
    ensures b.minHeight <= b.maxHeight ==> h <= b.maxHeight
    ensures b.minHeight <= v <= b.maxHeight ==> h == v
    ensures v > b.maxHeight ==> h == (if b.maxHeight >= b.minHeight then b.maxHeight else b.minHeight)
    ensures v < b.minHeight ==> h == b.minHeight
    ensures b.maxHeight < b.minHeight ==> h == b.minHeight
  {
    var capped := if b.maxHeight < v then b.maxHeight else v;
    if b.minHeight > capped then b.minHeight else capped
  }

  /** Clamping never reverses the order of two heights. */
  lemma ClampMonotone(u: real, v: real, b: Bounds)
    requires u <= v
    ensures ClampHeight(u, b) <= ClampHeight(v, b)
  {
  }

  /** `handleMouseDown`: the drag starts from the pointer's Y and the panel's current height. */
  function MouseDown(p: Panel, clientY: real): (p': Panel)
    ensures p'.isDragging && p'.dragStartY == clientY && p'.dragStartHeight == p.height
    ensures p'.height == p.height
  {
    Panel(p.height, true, clientY, p.height)
  }

  /**
    `handleMouseMove`: nothing happens outside a drag; during one the height
    is the start height plus how far the pointer rose since the drag began,
    clamped.
   */
  function MouseMove(p: Panel, b: Bounds, clientY: real): (p': Panel)
    ensures !p.isDragging ==> p' == p
    ensures p.isDragging ==>
      && p'.height == ClampHeight(p.dragStartHeight + (p.dragStartY - clientY), b)
      && p' == p.(height := p'.height)
  {
    if !p.isDragging then p
    else p.(height := ClampHeight(p.dragStartHeight + (p.dragStartY - clientY), b))
  }

  /** `handleMouseUp`: the drag ends and the height stays. */
  function MouseUp(p: Panel): (p': Panel)
    ensures !p'.isDragging && p'.height == p.height
    ensures p' == p.(isDragging := false)
  {
    p.(isDragging := false)
  }

  /** During a drag, a pointer higher on the screen never gives a smaller panel. */
  lemma MovingUpGrows(p: Panel, b: Bounds, y1: real, y2: real)
    requires p.isDragging && y2 <= y1
    ensures MouseMove(p, b, y2).height >= MouseMove(p, b, y1).height
  {
    ClampMonotone(p.dragStartHeight + (p.dragStartY - y1), p.dragStartHeight + (p.dragStartY - y2), b);
  }

  datatype PanelEvent = Down(y: real) | Move(y: real) | Up

  function Handle(p: Panel, b: Bounds, e: PanelEvent): Panel {
    match e
    case Down(y) => MouseDown(p, y)
    case Move(y) => MouseMove(p, b, y)
    case Up => MouseUp(p)
  }

  function HandleAll(p: Panel, b: Bounds, events: seq<PanelEvent>): Panel
    decreases |events|
  {
    if |events| == 0 then p else HandleAll(Handle(p, b, events[0]), b, events[1..])
  }

  function MoveAll(p: Panel, b: Bounds, ys: seq<real>): Panel
    decreases |ys|
  {
    if |ys| == 0 then p else MoveAll(MouseMove(p, b, ys[0]), b, ys[1..])
  }

  /**
    Within one drag the height depends only on where the drag started and
    the latest pointer position, not on the moves in between.
   */
  lemma {:induction false} LastMoveDecides(p: Panel, b: Bounds, ys: seq<real>)
    requires p.isDragging && |ys| > 0
    ensures MoveAll(p, b, ys) == MouseMove(p, b, ys[|ys| - 1])
    decreases |ys|
  {
    if |ys| > 1 {
      var q := MouseMove(p, b, ys[0]);
      assert q.isDragging && q.dragStartY == p.dragStartY && q.dragStartHeight == p.dragStartHeight;
      LastMoveDecides(q, b, ys[1..]);
    }
  }

  predicate InBounds(p: Panel, b: Bounds) {
    b.minHeight <= p.height <= b.maxHeight
  }

  /**
    With ordered bounds, once the panel is inside them (after the first drag
    move, say) no sequence of mouse events takes it out.
   */
  lemma {:induction false} StaysInBounds(p: Panel, b: Bounds, events: seq<PanelEvent>)
    requires b.minHeight <= b.maxHeight && InBounds(p, b)
    ensures InBounds(HandleAll(p, b, events), b)
    decreases |events|
  {
    if |events| > 0 {
      StaysInBounds(Handle(p, b, events[0]), b, events[1..]);
    }
  }

  /** A default height outside the bounds is kept until the first drag move. */
  lemma DefaultNotClamped()
    ensures var b := Bounds(120.0, 400.0, 500.0);
      && InitialPanel(b).height == 500.0
      && !InBounds(InitialPanel(b), b)
      && InBounds(HandleAll(InitialPanel(b), b, [Down(300.0), Move(300.0)]), b)
  {
    var b := Bounds(120.0, 400.0, 500.0);
    var events := [Down(300.0), Move(300.0)];
    assert events[1..][1..] == [];
  }
}
