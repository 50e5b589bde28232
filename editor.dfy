/** The dialogue editor window: pointer events, the node drawing pass with
    its buttons, and the deferred create / delete requests. */
module Editor {
  import opened Geometry
  import opened Dialogue
  import opened Links
  import opened Interaction

  /** The three button slots of a node: "+", the link slot (which shows
      link, cancel, Unlink or child) and "x". */
  datatype Slot = Plus | LinkSlot | Cross

  /** A request the editor makes of the dialogue after the drawing pass. */
  datatype StoreCall = CreateNode(parent: DialogueNode) | DeleteNode(node: DialogueNode)

  /** The node hit at p: scanning the nodes from the last drawn, the first
      one whose rect contains p. Null when none does. */
  function TopmostAt(nodes: seq<DialogueNode>, p: Vec): DialogueNode?
    reads (set n | n in nodes)`rect
  {
    if nodes == [] then null
    else if nodes[|nodes| - 1].rect.Contains(p) then nodes[|nodes| - 1]
    else TopmostAt(nodes[..|nodes| - 1], p)
  }

  /** Nothing is hit exactly when no rect contains p. */
  lemma {:induction false} TopmostAtNullIffNoHit(nodes: seq<DialogueNode>, p: Vec)
    ensures TopmostAt(nodes, p) == null <==> forall i :: 0 <= i < |nodes| ==> !nodes[i].rect.Contains(p)
  {
    if nodes != [] && !nodes[|nodes| - 1].rect.Contains(p) {
      var prefix := nodes[..|nodes| - 1];
      TopmostAtNullIffNoHit(prefix, p);
      assert forall i :: 0 <= i < |prefix| ==> prefix[i] == nodes[i];
    }
  }

  /** The node hit is the last node in draw order whose rect contains p, so
      it is drawn on top of every other node containing p. */
  lemma {:induction false} TopmostAtIsLastHit(nodes: seq<DialogueNode>, p: Vec)
    requires TopmostAt(nodes, p) != null
    ensures exists i :: (0 <= i < |nodes| && nodes[i] == TopmostAt(nodes, p) && nodes[i].rect.Contains(p) &&
                         forall j :: i < j < |nodes| ==> !nodes[j].rect.Contains(p))
  {
    var last := |nodes| - 1;
    if nodes[last].rect.Contains(p) {
      assert nodes[last] == TopmostAt(nodes, p);
    } else {
      var prefix := nodes[..last];
      assert TopmostAt(nodes, p) == TopmostAt(prefix, p);
      TopmostAtIsLastHit(prefix, p);
      var i :| 0 <= i < |prefix| && prefix[i] == TopmostAt(prefix, p) && prefix[i].rect.Contains(p) &&
               forall j :: i < j < |prefix| ==> !prefix[j].rect.Contains(p);
      assert forall j :: i < j < last ==> prefix[j] == nodes[j];
      assert nodes[i] == prefix[i];
    }
  }

  /** Of two nodes that both contain p, the one drawn later is hit. */
  lemma LaterShadowsEarlier(nodes: seq<DialogueNode>, i: nat, j: nat, p: Vec)
    requires i < j < |nodes| && nodes[i].rect.Contains(p) && nodes[j].rect.Contains(p)
    ensures exists k :: j <= k < |nodes| && TopmostAt(nodes, p) == nodes[k]
  {
    TopmostAtNullIffNoHit(nodes, p);
    TopmostAtIsLastHit(nodes, p);
  }

  /** The draw position of the last press of slot s among the first n
      nodes drawn. */
  function LastPressed(clicks: set<(nat, Slot)>, n: nat, s: Slot): (r: Option<nat>)
    ensures r.Some? ==> r.value < n
  {
    if n == 0 then None
    else if (n - 1, s) in clicks then Some(n - 1)
    else LastPressed(clicks, n - 1, s)
  }

  /** LastPressed finds the last press of s before n, and finds none only
      when there is none. */
  lemma {:induction false} LastPressedIsLast(clicks: set<(nat, Slot)>, n: nat, s: Slot)
    ensures var r := LastPressed(clicks, n, s);
      (r.Some? ==> r.value < n && (r.value, s) in clicks &&
                   forall j :: r.value < j < n ==> (j, s) !in clicks) &&
      (r.None? ==> forall j :: 0 <= j < n ==> (j, s) !in clicks)
  {
    if n > 0 && (n - 1, s) !in clicks {
      LastPressedIsLast(clicks, n - 1, s);
    }
  }

  /** A latch after the first n nodes of a drawing pass: the last of them
      whose slot s was pressed, or the latch's earlier value when none
      was. */
  function LatchAfter(prior: DialogueNode?, nodes: seq<DialogueNode>, clicks: set<(nat, Slot)>, s: Slot, n: nat): DialogueNode?
    requires n <= |nodes|
  {
    match LastPressed(clicks, n, s)
    case Some(i) => nodes[i]
    case None => prior
  }

  /** The slots pressed on the node drawn at position i. */
  function ClickedAt(clicks: set<(nat, Slot)>, i: nat): set<Slot>
  {
    (if (i, Plus) in clicks then {Plus} else {}) +
    (if (i, LinkSlot) in clicks then {LinkSlot} else {}) +
    (if (i, Cross) in clicks then {Cross} else {})
  }

  /** The nodes whose child ids a drawing pass may change. */
  function Domain(nodes: seq<DialogueNode>, parent: DialogueNode?): set<DialogueNode> {
    (set n | n in nodes) + AsSet(parent)
  }

  /** The child ids of the given nodes. */
  function ChildrenMap(dom: set<DialogueNode>): (m: map<DialogueNode, seq<string>>)
    reads dom`children
    ensures m.Keys == dom
  {
    map n | n in dom :: n.children
  }

  /** The link state after the first i nodes of a drawing pass, pressing
      the link slot of each node whose slot was clicked. */
  function PressAll(l: Linking, nodes: seq<DialogueNode>, clicks: set<(nat, Slot)>, i: nat): (r: Linking)
    requires i <= |nodes| && Tracks(l)
    requires (set n | n in nodes) <= l.children.Keys
    ensures Tracks(r) && r.children.Keys == l.children.Keys
  {
    if i == 0 then l
    else
      var r := PressAll(l, nodes, clicks, i - 1);
      if (i - 1, LinkSlot) in clicks then Press(r, nodes[i - 1]) else r
  }

  /** No drawing pass creates a duplicate child id. */
  lemma {:induction false} PressAllKeepsNoDuplicates(l: Linking, nodes: seq<DialogueNode>, clicks: set<(nat, Slot)>, i: nat)
    requires i <= |nodes| && Tracks(l)
    requires (set n | n in nodes) <= l.children.Keys
    requires AllNoDuplicates(l.children)
    ensures AllNoDuplicates(PressAll(l, nodes, clicks, i).children)
  {
    if i > 0 {
      PressAllKeepsNoDuplicates(l, nodes, clicks, i - 1);
      if (i - 1, LinkSlot) in clicks {
        PressKeepsNoDuplicates(PressAll(l, nodes, clicks, i - 1), nodes[i - 1]);
      }
    }
  }

  /** The requests made after the drawing pass: create first, then delete. */
  function Resolve(creating: DialogueNode?, deleting: DialogueNode?): seq<StoreCall> {
    (if creating != null then [CreateNode(creating)] else []) +
    (if deleting != null then [DeleteNode(deleting)] else [])
  }

  /** The rect position of a node; the origin for a missing node. */
  function PositionOf(n: DialogueNode?): Vec
    reads AsSet(n)`rect
  {
    if n == null then Vec(0, 0) else n.rect.position
  }

  class DialogueEditor {
    var selectedDialogue: Dialogue?
    var draggingNode: DialogueNode?
    var draggingOffset: Vec
    var creatingNode: DialogueNode?
    var nodeToDelete: DialogueNode?
    var linkingParentNode: DialogueNode?
    var scrollPosition: Vec
    var draggingCanvas: bool
    var draggingCanvasOffset: Vec

    /** A fresh window: nothing selected, no gesture, no pending request. */
    constructor ()
      ensures selectedDialogue == null && linkingParentNode == null
      ensures creatingNode == null && nodeToDelete == null
      ensures GestureState() == Gesture(null, Vec(0, 0), false, Vec(0, 0), Vec(0, 0))
    {
      selectedDialogue := null;
      draggingNode := null;
      draggingOffset := Vec(0, 0);
      creatingNode := null;
      nodeToDelete := null;
      linkingParentNode := null;
      scrollPosition := Vec(0, 0);
      draggingCanvas := false;
      draggingCanvasOffset := Vec(0, 0);
    }

    /** The fields ProcessEvents works on. */
    function GestureState(): Gesture
      reads this
    {
      Gesture(draggingNode, draggingOffset, draggingCanvas, draggingCanvasOffset, scrollPosition)
    }

    /** The effect of pressing (or not) the link slot of `node`, where p is
        the node that was proposing a link before. */
    twostate predicate LinkEffect(p: DialogueNode?, node: DialogueNode, pressed: bool)
      reads this, AsSet(p)`children
    {
      (linkingParentNode, ChildIds(p)) == if pressed then PressOn(p, old(ChildIds(p)), node) else (p, old(ChildIds(p)))
    }

    /** A newly selected dialogue asset replaces the current one; selecting
        something that is not a dialogue keeps it. */
    method OnSelectionChange(newDialogue: Dialogue?)
      modifies this`selectedDialogue
      ensures selectedDialogue == if newDialogue != null then newDialogue else old(selectedDialogue)
    {
      if newDialogue != null {
        selectedDialogue := newDialogue;
      }
    }

    /** Scans the nodes in draw order and keeps the last one containing the
        point. */
    method GetNodeAtPoint(allNodes: seq<DialogueNode>, point: Vec) returns (foundNode: DialogueNode?)
      ensures foundNode == TopmostAt(allNodes, point)
    {
      foundNode := null;
      var i := 0;
      while i < |allNodes|
        invariant 0 <= i <= |allNodes|
        invariant foundNode == TopmostAt(allNodes[..i], point)
      {
        assert allNodes[..i + 1][..i] == allNodes[..i];
        if allNodes[i].rect.Contains(point) {
          foundNode := allNodes[i];
        }
        i := i + 1;
      }
      assert allNodes[..i] == allNodes;
    }

    /** One pointer event: grab a node or start a pan on mouse-down, move
        the node or pan on drag, end the gesture on mouse-up. */
    method ProcessEvents(e: Event, allNodes: seq<DialogueNode>)
      modifies this`draggingNode, this`draggingOffset, this`draggingCanvas
      modifies this`draggingCanvasOffset, this`scrollPosition, AsSet(draggingNode)`rect
      ensures var hit := old(TopmostAt(allNodes, e.mousePosition));
        var o := Step(old(GestureState()), e, hit, old(PositionOf(hit)));
        GestureState() == o.gesture &&
        (old(draggingNode) != null ==>
           old(draggingNode).rect == if o.moveTo.Some? then old(draggingNode.rect).(position := o.moveTo.value)
                                     else old(draggingNode.rect))
    {
      if e.kind == MouseDown && draggingNode == null {
        draggingNode := GetNodeAtPoint(allNodes, e.mousePosition);
        if draggingNode != null {
          ghost var hit := draggingNode;
          assert PositionOf(hit) == old(PositionOf(hit));
          draggingOffset := draggingNode.rect.position.Minus(e.mousePosition);
        } else {
          draggingCanvas := true;
          draggingCanvasOffset := e.mousePosition.Plus(scrollPosition);
        }
      } else if e.kind == MouseDrag && draggingNode != null {
        draggingNode.rect := draggingNode.rect.(position := e.mousePosition.Plus(draggingOffset));
      } else if e.kind == MouseDrag && draggingCanvas {
        scrollPosition := draggingCanvasOffset.Minus(e.mousePosition);
      } else if e.kind == MouseUp && draggingNode != null {
        draggingNode := null;
      } else if e.kind == MouseUp && draggingCanvas {
        draggingCanvas := false;
      }
    }

    /** Shows the link slot of `node` and applies a press of it. */
    method DrawLinkButtons(node: DialogueNode, pressed: bool) returns (shown: LinkButton)
      modifies this`linkingParentNode, AsSet(linkingParentNode)`children
      ensures shown == old(ButtonFor(linkingParentNode, ChildIds(linkingParentNode), node))
      ensures LinkEffect(old(linkingParentNode), node, pressed)
    {
      if linkingParentNode == null {
        shown := Link;
        if pressed {
          linkingParentNode := node;
        }
      } else if linkingParentNode == node {
        shown := Cancel;
        if pressed {
          linkingParentNode := null;
        }
      } else if node.uniqueID in linkingParentNode.children {
        shown := Unlink;
        if pressed {
          linkingParentNode.children := RemoveFirst(linkingParentNode.children, node.uniqueID);
          linkingParentNode := null;
        }
      } else {
        shown := Child;
        if pressed {
          linkingParentNode.children := linkingParentNode.children + [node.uniqueID];
          linkingParentNode := null;
        }
      }
    }

    /** Draws one node's buttons: "+" latches a create request for it, the
        link slot is DrawLinkButtons, "x" latches a delete request. */
    method DrawNode(node: DialogueNode, clicked: set<Slot>)
      modifies this`creatingNode, this`nodeToDelete, this`linkingParentNode
      modifies AsSet(linkingParentNode)`children
      ensures creatingNode == if Plus in clicked then node else old(creatingNode)
      ensures nodeToDelete == if Cross in clicked then node else old(nodeToDelete)
      ensures LinkEffect(old(linkingParentNode), node, LinkSlot in clicked)
    {
      if Plus in clicked {
        creatingNode := node;
      }
      var _ := DrawLinkButtons(node, LinkSlot in clicked);
      if Cross in clicked {
        nodeToDelete := node;
      }
    }

    /** DrawNode, seen through the child ids of a set of nodes that holds
        the node and the linking parent. */
    method DrawTracked(node: DialogueNode, clicked: set<Slot>, ghost dom: set<DialogueNode>,
                       ghost kids: map<DialogueNode, seq<string>>)
      returns (ghost after: map<DialogueNode, seq<string>>)
      requires node in dom && AsSet(linkingParentNode) <= dom
      requires kids.Keys == dom && forall n :: n in dom ==> n.children == kids[n]
      modifies this`creatingNode, this`nodeToDelete, this`linkingParentNode, dom`children
      ensures creatingNode == if Plus in clicked then node else old(creatingNode)
      ensures nodeToDelete == if Cross in clicked then node else old(nodeToDelete)
      ensures after.Keys == dom && forall n :: n in dom ==> n.children == after[n]
      ensures Linking(linkingParentNode, after) ==
        if LinkSlot in clicked then Press(Linking(old(linkingParentNode), kids), node)
        else Linking(old(linkingParentNode), kids)
    {
      ghost var before := Linking(linkingParentNode, kids);
      DrawNode(node, clicked);
      after := (if LinkSlot in clicked then Press(before, node) else before).children;
      forall n | n in dom ensures n.children == after[n] {
        if n != before.parent {
          assert n.children == old(n.children);
        }
      }
    }

    /** The drawing pass over all nodes in draw order. */
    method DrawNodes(allNodes: seq<DialogueNode>, clicks: set<(nat, Slot)>)
      modifies this`creatingNode, this`nodeToDelete, this`linkingParentNode
      modifies Domain(allNodes, linkingParentNode)`children
      ensures creatingNode == LatchAfter(old(creatingNode), allNodes, clicks, Plus, |allNodes|)
      ensures nodeToDelete == LatchAfter(old(nodeToDelete), allNodes, clicks, Cross, |allNodes|)
      ensures Linking(linkingParentNode, ChildrenMap(old(Domain(allNodes, linkingParentNode)))) ==
        PressAll(old(Linking(linkingParentNode, ChildrenMap(Domain(allNodes, linkingParentNode)))),
                 allNodes, clicks, |allNodes|)
    {
      ghost var dom := Domain(allNodes, linkingParentNode);
      ghost var l0 := Linking(linkingParentNode, ChildrenMap(dom));
      ghost var kids := l0.children;
      ghost var creating0, deleting0 := creatingNode, nodeToDelete;
      var i := 0;
      while i < |allNodes|
        invariant 0 <= i <= |allNodes|
        invariant kids.Keys == dom && forall n :: n in dom ==> n.children == kids[n]
        invariant AsSet(linkingParentNode) <= dom
        invariant Linking(linkingParentNode, kids) == PressAll(l0, allNodes, clicks, i)
        invariant creatingNode == LatchAfter(creating0, allNodes, clicks, Plus, i)
        invariant nodeToDelete == LatchAfter(deleting0, allNodes, clicks, Cross, i)
      {
        kids := DrawTracked(allNodes[i], ClickedAt(clicks, i), dom, kids);
        i := i + 1;
      }
      assert ChildrenMap(dom) == kids;
    }

    /** After the drawing pass: the latched create request, then the
        latched delete request, are passed on, and both latches cleared. */
    method ResolveLatches() returns (calls: seq<StoreCall>)
      modifies this`creatingNode, this`nodeToDelete
      ensures creatingNode == null && nodeToDelete == null
      ensures calls == Resolve(old(creatingNode), old(nodeToDelete))
    {
      calls := [];
      if creatingNode != null {
        calls := calls + [CreateNode(creatingNode)];
        creatingNode := null;
      }
      if nodeToDelete != null {
        calls := calls + [DeleteNode(nodeToDelete)];
        nodeToDelete := null;
      }
    }

    /** One frame of the window: the pointer event, the drawing pass with
        its button presses, then the latched create and delete requests,
        in that order, after which both latches are clear. */
    method OnGUI(e: Event, allNodes: seq<DialogueNode>, clicks: set<(nat, Slot)>) returns (calls: seq<StoreCall>)
      modifies this`draggingNode, this`draggingOffset, this`draggingCanvas
      modifies this`draggingCanvasOffset, this`scrollPosition, AsSet(draggingNode)`rect
      modifies this`creatingNode, this`nodeToDelete, this`linkingParentNode
      modifies Domain(allNodes, linkingParentNode)`children
      // with no dialogue selected the window only shows a label
      ensures old(selectedDialogue) == null ==> calls == [] && unchanged(this)
      ensures old(selectedDialogue) == null && old(draggingNode) != null ==>
        old(draggingNode).rect == old(draggingNode.rect)
      ensures old(selectedDialogue) == null ==>
        ChildrenMap(old(Domain(allNodes, linkingParentNode))) == old(ChildrenMap(Domain(allNodes, linkingParentNode)))
      // otherwise: first the pointer event ...
      ensures old(selectedDialogue) != null ==>
        var hit := old(TopmostAt(allNodes, e.mousePosition));
        var o := Step(old(GestureState()), e, hit, old(PositionOf(hit)));
        GestureState() == o.gesture &&
        (old(draggingNode) != null ==>
           old(draggingNode).rect == if o.moveTo.Some? then old(draggingNode.rect).(position := o.moveTo.value)
                                     else old(draggingNode.rect))
      // ... then the link presses of the drawing pass ...
      ensures old(selectedDialogue) != null ==>
        Linking(linkingParentNode, ChildrenMap(old(Domain(allNodes, linkingParentNode)))) ==
          PressAll(old(Linking(linkingParentNode, ChildrenMap(Domain(allNodes, linkingParentNode)))),
                   allNodes, clicks, |allNodes|)
      // ... then create, then delete, and both latches are clear
      ensures old(selectedDialogue) != null ==>
        creatingNode == null && nodeToDelete == null &&
        calls == Resolve(LatchAfter(old(creatingNode), allNodes, clicks, Plus, |allNodes|),
                         LatchAfter(old(nodeToDelete), allNodes, clicks, Cross, |allNodes|))
    {
      calls := [];
      if selectedDialogue != null {
        ghost var dom := Domain(allNodes, linkingParentNode);
        ghost var l0 := Linking(linkingParentNode, ChildrenMap(dom));
        ProcessEvents(e, allNodes);
        assert Linking(linkingParentNode, ChildrenMap(dom)) == l0;
        ghost var g1 := GestureState();
        DrawNodes(allNodes, clicks);
        assert GestureState() == g1;
        calls := ResolveLatches();
      }
    }
  }
}
