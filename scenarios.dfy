/** Short interaction sequences on the editor, stated from the operations'
    contracts alone. */
module Scenarios {
  import opened Geometry
  import opened Dialogue
  import opened Links
  import opened Interaction
  import opened Editor

  /** Two overlapping nodes: the one drawn second is the one hit. */
  method TopmostWins(ed: DialogueEditor, a: DialogueNode, b: DialogueNode, p: Vec) returns (found: DialogueNode?)
    requires a.rect.Contains(p) && b.rect.Contains(p)
    ensures found == b
  {
    found := ed.GetNodeAtPoint([a, b], p);
  }

  /** A point outside every node hits nothing. */
  method MissHitsNothing(ed: DialogueEditor, nodes: seq<DialogueNode>, p: Vec) returns (found: DialogueNode?)
    requires forall i :: 0 <= i < |nodes| ==> !nodes[i].rect.Contains(p)
    ensures found == null
  {
    found := ed.GetNodeAtPoint(nodes, p);
    TopmostAtNullIffNoHit(nodes, p);
  }

  /** "link" on the parent, "child" on another node, "link" on the parent
      again, "Unlink" on that node: the parent's child ids are as before,
      and the buttons shown were link, child, link, Unlink. */
  method LinkThenUnlink(ed: DialogueEditor, parent: DialogueNode, node: DialogueNode)
    returns (shown: seq<LinkButton>)
    requires ed.linkingParentNode == null && parent != node
    requires node.uniqueID !in parent.children
    modifies ed`linkingParentNode, parent`children
    ensures parent.children == old(parent.children) && ed.linkingParentNode == null
    ensures shown == [Link, Child, Link, Unlink]
  {
    var b0 := ed.DrawLinkButtons(parent, true);
    var b1 := ed.DrawLinkButtons(node, true);
    assert parent.children == old(parent.children) + [node.uniqueID];
    var b2 := ed.DrawLinkButtons(parent, true);
    var b3 := ed.DrawLinkButtons(node, true);
    AddThenRemove(old(parent.children), node.uniqueID);
    shown := [b0, b1, b2, b3];
  }

  /** "link" then "cancel" on the same node: nothing is linked. */
  method LinkThenCancel(ed: DialogueEditor, parent: DialogueNode)
    returns (shown: seq<LinkButton>)
    requires ed.linkingParentNode == null
    modifies ed`linkingParentNode, parent`children
    ensures parent.children == old(parent.children) && ed.linkingParentNode == null
    ensures shown == [Link, Cancel]
  {
    var b0 := ed.DrawLinkButtons(parent, true);
    var b1 := ed.DrawLinkButtons(parent, true);
    shown := [b0, b1];
  }

  /** Press on a node, drag, release: the node is translated by
      (pointer at release - pointer at press) and no gesture is left
      active. */
  method GrabDragRelease(ed: DialogueEditor, nodes: seq<DialogueNode>, node: DialogueNode, p: Vec, q: Vec)
    requires ed.draggingNode == null && !ed.draggingCanvas
    requires TopmostAt(nodes, p) == node
    modifies ed`draggingNode, ed`draggingOffset, ed`draggingCanvas, ed`draggingCanvasOffset, ed`scrollPosition
    modifies node`rect
    ensures node.rect == old(node.rect).(position := old(node.rect.position).Plus(q.Minus(p)))
    ensures ed.draggingNode == null && !ed.draggingCanvas && ed.scrollPosition == old(ed.scrollPosition)
  {
    ed.ProcessEvents(Event(MouseDown, p), nodes);
    ed.ProcessEvents(Event(MouseDrag, q), nodes);
    ed.ProcessEvents(Event(MouseUp, q), nodes);
  }
}
