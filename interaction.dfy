/** The pointer-event state machine of the editor (ProcessEvents) as a pure
    function on the drag state. The editor class follows it step by step. */
module Interaction {
  import opened Geometry
  import opened Dialogue

  datatype Option<T> = None | Some(value: T)

  /** Unity's event types, as far as the editor tells them apart. */
  datatype EventType = MouseDown | MouseDrag | MouseUp | Other

  /** The current input event. */
  datatype Event = Event(kind: EventType, mousePosition: Vec)

  /** The editor fields that ProcessEvents reads and writes. */
  datatype Gesture = Gesture(
    draggingNode: DialogueNode?,
    draggingOffset: Vec,
    draggingCanvas: bool,
    draggingCanvasOffset: Vec,
    scrollPosition: Vec)

  /** The new drag state, and the new rect position of the dragged node
      when the event moves it. */
  datatype Outcome = Outcome(gesture: Gesture, moveTo: Option<Vec>)

  /** One event through the if / else-if chain. `hit` is the topmost node
      under the mouse and `hitPosition` its rect position; they are only
      consulted by a mouse-down. */
  function Step(g: Gesture, e: Event, hit: DialogueNode?, hitPosition: Vec): Outcome {
    var m := e.mousePosition;
    if e.kind == MouseDown && g.draggingNode == null then
      if hit != null then
        Outcome(g.(draggingNode := hit, draggingOffset := hitPosition.Minus(m)), None)
      else
        Outcome(g.(draggingCanvas := true, draggingCanvasOffset := m.Plus(g.scrollPosition)), None)
    else if e.kind == MouseDrag && g.draggingNode != null then
      Outcome(g, Some(m.Plus(g.draggingOffset)))
    else if e.kind == MouseDrag && g.draggingCanvas then
      Outcome(g.(scrollPosition := g.draggingCanvasOffset.Minus(m)), None)
    else if e.kind == MouseUp && g.draggingNode != null then
      Outcome(g.(draggingNode := null), None)
    else if e.kind == MouseUp && g.draggingCanvas then
      Outcome(g.(draggingCanvas := false), None)
    else
      Outcome(g, None)
  }

  /** A mouse-down while a node is being dragged changes nothing. */
  lemma PressWhileDraggingIgnored(g: Gesture, e: Event, hit: DialogueNode?, hitPosition: Vec)
    requires e.kind == MouseDown && g.draggingNode != null
    ensures Step(g, e, hit, hitPosition) == Outcome(g, None)
  {
  }

  /** A mouse-down on a node grabs it, remembering where in the node the
      pointer is; a mouse-down on empty canvas starts a pan anchored at the
      pointer plus the current scroll. Nothing else changes. */
  lemma PressGrabs(g: Gesture, e: Event, hit: DialogueNode?, hitPosition: Vec)
    requires e.kind == MouseDown && g.draggingNode == null
    ensures var o := Step(g, e, hit, hitPosition);
      o.moveTo == None &&
      (hit != null ==> o.gesture == g.(draggingNode := hit, draggingOffset := hitPosition.Minus(e.mousePosition))) &&
      (hit == null ==> o.gesture == g.(draggingCanvas := true, draggingCanvasOffset := e.mousePosition.Plus(g.scrollPosition)))
  {
  }

  /** A drag moves the grabbed node to pointer + offset and leaves the drag
      state (scroll included) alone, even while a pan is also flagged. */
  lemma NodeDragWins(g: Gesture, e: Event, hit: DialogueNode?, hitPosition: Vec)
    requires e.kind == MouseDrag && g.draggingNode != null
    ensures Step(g, e, hit, hitPosition) == Outcome(g, Some(e.mousePosition.Plus(g.draggingOffset)))
  {
  }

  /** With no grabbed node, a drag during a pan sets the scroll to
      anchor - pointer and moves no node. */
  lemma CanvasDragPans(g: Gesture, e: Event, hit: DialogueNode?, hitPosition: Vec)
    requires e.kind == MouseDrag && g.draggingNode == null && g.draggingCanvas
    ensures Step(g, e, hit, hitPosition) ==
      Outcome(g.(scrollPosition := g.draggingCanvasOffset.Minus(e.mousePosition)), None)
  {
  }

  /** A mouse-up ends exactly one gesture: the node drag if there is one,
      otherwise the pan. */
  lemma ReleaseEndsOneGesture(g: Gesture, e: Event, hit: DialogueNode?, hitPosition: Vec)
    requires e.kind == MouseUp
    ensures var o := Step(g, e, hit, hitPosition);
      o.moveTo == None &&
      (g.draggingNode != null ==> o.gesture == g.(draggingNode := null)) &&
      (g.draggingNode == null ==> o.gesture == g.(draggingCanvas := false))
  {
  }

  /** Events of any other type change nothing. */
  lemma OtherEventsIgnored(g: Gesture, e: Event, hit: DialogueNode?, hitPosition: Vec)
    requires e.kind == Other
    ensures Step(g, e, hit, hitPosition) == Outcome(g, None)
  {
  }

  /** Grabbing a node at p and dragging to q moves it by q - p: the drag is
      a pure translation. */
  lemma GrabThenDragTranslates(g: Gesture, hit: DialogueNode, hitPosition: Vec, p: Vec, q: Vec)
    requires g.draggingNode == null
    ensures var g1 := Step(g, Event(MouseDown, p), hit, hitPosition).gesture;
      Step(g1, Event(MouseDrag, q), hit, hitPosition).moveTo == Some(hitPosition.Plus(q.Minus(p)))
  {
  }

  /** Pressing on empty canvas at p and dragging to q scrolls by p - q; so
      dragging back to p restores the scroll. */
  lemma PanThenDragScrolls(g: Gesture, p: Vec, q: Vec, hitPosition: Vec)
    requires g.draggingNode == null
    ensures var g1 := Step(g, Event(MouseDown, p), null, hitPosition).gesture;
      Step(g1, Event(MouseDrag, q), null, hitPosition).gesture.scrollPosition ==
        g.scrollPosition.Plus(p.Minus(q))
  {
  }

  /** Dragging keeps the pointer over the same spot of the grabbed node:
      a node grabbed at a point p inside its rect still contains the
      pointer q after the drag moves it. */
  lemma DragKeepsPointerInside(g: Gesture, hit: DialogueNode, r: Rect, p: Vec, q: Vec)
    requires g.draggingNode == null && r.Contains(p)
    ensures var g1 := Step(g, Event(MouseDown, p), hit, r.position).gesture;
      var o := Step(g1, Event(MouseDrag, q), hit, r.position);
      o.moveTo.Some? && r.(position := o.moveTo.value).Contains(q) &&
      q.Minus(o.moveTo.value) == p.Minus(r.position)
  {
    GrabThenDragTranslates(g, hit, r.position, p, q);
    ContainsTranslated(r, p, q.Minus(p));
    assert p.Plus(q.Minus(p)) == q;
  }

  /** Both gestures can be flagged at once: from a fresh window, a press on
      empty canvas, a drag, and a press on a node leave the pan flagged
      while the node is grabbed, because only a mouse-up clears the pan. A
      following drag then moves the node and leaves the scroll alone, so
      the order of the drag branches decides which gesture acts. */
  lemma PanThenGrabFlagsBoth(g: Gesture, n: DialogueNode, hitPosition: Vec, p: Vec, q: Vec, r: Vec, s: Vec)
    requires g.draggingNode == null && !g.draggingCanvas
    ensures var g1 := Step(g, Event(MouseDown, p), null, hitPosition).gesture;
      var g2 := Step(g1, Event(MouseDrag, q), null, hitPosition).gesture;
      var g3 := Step(g2, Event(MouseDown, r), n, hitPosition).gesture;
      var o := Step(g3, Event(MouseDrag, s), n, hitPosition);
      g3.draggingNode == n && g3.draggingCanvas &&
      o.gesture == g3 && o.moveTo == Some(s.Plus(hitPosition.Minus(r)))
  {
  }

  /** A run of drag events to the pointer positions `path`: the final drag
      state and the last position the dragged node was moved to. */
  function DragRun(g: Gesture, path: seq<Vec>): (Gesture, Option<Vec>)
    decreases |path|
  {
    if path == [] then (g, None)
    else
      var o := Step(g, Event(MouseDrag, path[0]), null, Vec(0, 0));
      var (g', last) := DragRun(o.gesture, path[1..]);
      (g', if last.Some? then last else o.moveTo)
  }

  /** However many drag events there are, the grabbed node ends at the last
      pointer position plus the grab offset, and the drag state is as
      before. */
  lemma {:induction false} DragRunEndsAtLastPointer(g: Gesture, path: seq<Vec>)
    requires g.draggingNode != null && path != []
    ensures DragRun(g, path) == (g, Some(path[|path| - 1].Plus(g.draggingOffset)))
    decreases |path|
  {
    if |path| > 1 {
      DragRunEndsAtLastPointer(g, path[1..]);
    }
  }

  /** However many drag events a pan sees, the scroll ends at the anchor
      minus the last pointer position and no node moves. */
  lemma {:induction false} PanRunEndsAtLastPointer(g: Gesture, path: seq<Vec>)
    requires g.draggingNode == null && g.draggingCanvas && path != []
    ensures DragRun(g, path) ==
      (g.(scrollPosition := g.draggingCanvasOffset.Minus(path[|path| - 1])), None)
    decreases |path|
  {
    var g1 := g.(scrollPosition := g.draggingCanvasOffset.Minus(path[0]));
    if |path| > 1 {
      assert g1.(scrollPosition := g.draggingCanvasOffset.Minus(path[|path| - 1])) ==
        g.(scrollPosition := g.draggingCanvasOffset.Minus(path[|path| - 1]));
      PanRunEndsAtLastPointer(g1, path[1..]);
    }
  }
}
