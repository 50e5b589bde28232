# Dialogue editor interaction model

This project models the interaction logic of the Unity dialogue editor window
(`DialogueEditor`). The window shows the nodes of the selected dialogue asset
on a scrollable canvas. Each frame (`OnGUI`) it does three things:

- It runs one pointer event through `ProcessEvents`. A mouse-down grabs the
  topmost node under the pointer or starts a canvas pan. A drag moves the
  grabbed node or scrolls the canvas. A mouse-up ends the gesture.
  A node drag and a canvas pan can be active at once: a mouse-down on a
  node during a pan grabs the node without ending the pan, and only a
  mouse-up clears the pan flag. While both are set, a drag moves the node
  and leaves the scroll alone (`PanThenGrabFlagsBoth`).
- It draws every node in draw order. Each node has three buttons:
  - "+" latches a request to create a child of the node.
  - The link slot (`DrawLinkButtons`) shows link, cancel, Unlink or child.
    It edits the proposing node's list of child ids in place.
  - "x" latches a request to delete the node.
- After the drawing pass it passes on the latched create request, then the
  latched delete request, and clears both latches.

Modules:

- `Geometry`: integer `Vec` and `Rect`. `Contains` is a half-open box test.
- `Dialogue`: the `DialogueNode` class, with a mutable `rect` and `children`
  id list. `Dialogue` is the asset, whose own operations are not modelled.
- `Links`: the child-id list operations. `RemoveFirst` is C#'s `List.Remove`.
  This module also holds the button choice `ButtonFor` and the effect of a
  press, `PressOn` for one proposer and `Press` for every node in view.
- `Interaction`: `ProcessEvents`' if / else-if chain as a pure function
  `Step` on the drag state, with lemmas for every branch and for runs of drags.
- `Editor`:
  - the hit-test specification `TopmostAt`
  - the drawing-pass specifications `LatchAfter` and `PressAll`
  - the `DialogueEditor` class. Its methods change the fields in place and
    are proved against those specifications.
- `Scenarios`: short event sequences on the editor, proved from the methods'
  contracts.

## Model

| member | source | states |
|---|---|---|
| Editor.DialogueEditor.constructor | Assets/Scripts/Dialogue/Editor/DialogueEditor.cs:10-27 | A new window has no dialogue selected, no gesture, no link proposal and no pending request. |
| Editor.DialogueEditor.OnSelectionChange | Assets/Scripts/Dialogue/Editor/DialogueEditor.cs:57-65 | Selecting a dialogue replaces the current one. Selecting anything else (null) keeps the current one. |
| Editor.DialogueEditor.GetNodeAtPoint | Assets/Scripts/Dialogue/Editor/DialogueEditor.cs:226-237 | The scan returns `TopmostAt`: the last node in draw order whose rect contains the point, or null. |
| Editor.TopmostAtNullIffNoHit | Assets/Scripts/Dialogue/Editor/DialogueEditor.cs:226-237 | The hit test returns null exactly when no node's rect contains the point. |
| Editor.TopmostAtIsLastHit | Assets/Scripts/Dialogue/Editor/DialogueEditor.cs:226-237 | A non-null hit is a node at some index i whose rect contains the point, and no node after i contains it. |
| Editor.LaterShadowsEarlier | Assets/Scripts/Dialogue/Editor/DialogueEditor.cs:226-237 | When nodes i < j both contain the point, the node hit sits at index j or later, so a later node shadows an earlier one. |
| Editor.DialogueEditor.ProcessEvents | Assets/Scripts/Dialogue/Editor/DialogueEditor.cs:121-155 | The new drag fields are `Step` of the old ones. The hit is `TopmostAt` of the old rects. Only the grabbed node's rect changes, and only its position moves. |
| Interaction.PressWhileDraggingIgnored | Assets/Scripts/Dialogue/Editor/DialogueEditor.cs:123-136 | A mouse-down while a node is grabbed changes nothing and moves nothing. |
| Interaction.PressGrabs | Assets/Scripts/Dialogue/Editor/DialogueEditor.cs:123-135 | A mouse-down on a node grabs it with offset rect.position - mouse. On empty canvas it starts a pan anchored at mouse + scrollPosition. No other field changes. |
| Interaction.NodeDragWins | Assets/Scripts/Dialogue/Editor/DialogueEditor.cs:136-141 | A drag with a grabbed node moves it to mouse + offset and leaves the drag state and scroll as they were, even when a pan is flagged. |
| Interaction.CanvasDragPans | Assets/Scripts/Dialogue/Editor/DialogueEditor.cs:142-146 | A drag with no grabbed node during a pan sets scrollPosition to anchor - mouse and moves no node. |
| Interaction.ReleaseEndsOneGesture | Assets/Scripts/Dialogue/Editor/DialogueEditor.cs:147-154 | A mouse-up clears the grabbed node if there is one, otherwise the pan flag. It never clears both and moves no node. |
| Interaction.OtherEventsIgnored | Assets/Scripts/Dialogue/Editor/DialogueEditor.cs:121-155 | An event that is not a mouse-down, drag or up changes nothing. |
| Interaction.GrabThenDragTranslates | Assets/Scripts/Dialogue/Editor/DialogueEditor.cs:123-141 | Grabbing a node at p and dragging to q moves it to its old position + (q - p). |
| Interaction.PanThenDragScrolls | Assets/Scripts/Dialogue/Editor/DialogueEditor.cs:123-146 | Pressing on empty canvas at p and dragging to q moves the scroll by p - q. |
| Interaction.DragRunEndsAtLastPointer | Assets/Scripts/Dialogue/Editor/DialogueEditor.cs:136-141 | After any non-empty run of drags with a grabbed node, the node is at the last pointer + offset and the drag state is unchanged. Only the last drag matters. |
| Interaction.PanRunEndsAtLastPointer | Assets/Scripts/Dialogue/Editor/DialogueEditor.cs:142-146 | After any non-empty run of drags during a pan, the scroll is anchor - last pointer and no node was moved. |
| Interaction.DragKeepsPointerInside | Assets/Scripts/Dialogue/Editor/DialogueEditor.cs:123-141 | A node grabbed at a point inside its rect still contains the pointer after a drag, at the same spot relative to the node. |
| Interaction.PanThenGrabFlagsBoth | Assets/Scripts/Dialogue/Editor/DialogueEditor.cs:123-146 | From a fresh window, press on empty canvas, drag, then press on a node: the node is grabbed while the pan is still flagged. A further drag moves the node and leaves the scroll alone, so the order of the drag branches decides which gesture acts. |
| Editor.DialogueEditor.DrawLinkButtons | Assets/Scripts/Dialogue/Editor/DialogueEditor.cs:190-224 | The button shown is `ButtonFor`: link, cancel, Unlink, child in that priority. A press has the effect `PressOn` gives on the latch and on the proposer's child ids. |
| Links.ButtonGuards | Assets/Scripts/Dialogue/Editor/DialogueEditor.cs:192-224 | "child" is shown only for a node other than the proposer whose id is absent, so no node becomes its own child and no id is added twice. "Unlink" is shown only for another node whose id is present. |
| Links.PressOnChangesOneId | Assets/Scripts/Dialogue/Editor/DialogueEditor.cs:199-222 | "child" appends exactly the node's id. "Unlink" removes exactly one copy of it, shortening the list by one. link and cancel leave the list alone. |
| Links.IndexOf | Assets/Scripts/Dialogue/Editor/DialogueEditor.cs:211 | The result is the position of the first occurrence of the id. |
| Links.RemoveFirst | Assets/Scripts/Dialogue/Editor/DialogueEditor.cs:211 | `List.Remove` leaves the list as it is when the id is absent. Otherwise it shortens the list by one. |
| Links.RemoveFirstCutsFirst | Assets/Scripts/Dialogue/Editor/DialogueEditor.cs:211 | Removal cuts out exactly the element at the first occurrence and keeps the order of the rest. |
| Links.RemoveFirstMultiset | Assets/Scripts/Dialogue/Editor/DialogueEditor.cs:211 | Removal takes exactly one copy of the id out of the multiset of ids. |
| Links.RemoveFirstSubset | Assets/Scripts/Dialogue/Editor/DialogueEditor.cs:211 | Removal introduces no id. |
| Links.AddThenRemove | Assets/Scripts/Dialogue/Editor/DialogueEditor.cs:206-222 | Appending an absent id and then removing it gives back the original list. |
| Links.AddKeepsNoDuplicates | Assets/Scripts/Dialogue/Editor/DialogueEditor.cs:215-222 | Appending an absent id keeps a duplicate-free list duplicate-free. |
| Links.RemoveKeepsNoDuplicates | Assets/Scripts/Dialogue/Editor/DialogueEditor.cs:206-213 | Removing from a duplicate-free list keeps it duplicate-free and leaves the id absent. |
| Links.Press | Assets/Scripts/Dialogue/Editor/DialogueEditor.cs:190-224 | A press keeps the proposer among the nodes in view and keeps the set of nodes. It changes no node's child ids except the proposer's. |
| Links.PressKeepsNoDuplicates | Assets/Scripts/Dialogue/Editor/DialogueEditor.cs:190-224 | If no node has a duplicate child id, no press of a link button creates one. |
| Links.LinkThenUnlinkRestores | Assets/Scripts/Dialogue/Editor/DialogueEditor.cs:192-222 | Pressing link on P, child on N, link on P, then Unlink on N restores every child list and leaves no proposal. |
| Links.LinkThenCancel | Assets/Scripts/Dialogue/Editor/DialogueEditor.cs:192-205 | Pressing link and then cancel on the same node changes nothing. |
| Editor.DialogueEditor.DrawNode | Assets/Scripts/Dialogue/Editor/DialogueEditor.cs:170-179 | "+" sets `creatingNode` to the node. "x" sets `nodeToDelete` to the node. An unpressed latch keeps its value. The link slot has the effect of `DrawLinkButtons`. |
| Editor.DialogueEditor.DrawTracked | Assets/Scripts/Dialogue/Editor/DialogueEditor.cs:170-179 | The effect of drawing one node on the child ids of all nodes in view is one `Press`, or nothing when the link slot was not pressed. |
| Editor.LastPressed | Assets/Scripts/Dialogue/Editor/DialogueEditor.cs:83-86 | Any press found lies among the nodes drawn so far. |
| Editor.LastPressedIsLast | Assets/Scripts/Dialogue/Editor/DialogueEditor.cs:83-86 | The press found is the last press of the slot in the pass. None is found exactly when there was no press, so the last press wins. |
| Editor.PressAll | Assets/Scripts/Dialogue/Editor/DialogueEditor.cs:83-86 | Pressing the link slots of a pass in draw order keeps the proposer in view and the set of nodes in view. |
| Editor.PressAllKeepsNoDuplicates | Assets/Scripts/Dialogue/Editor/DialogueEditor.cs:83-86 | A whole drawing pass never creates a duplicate child id. |
| Editor.DialogueEditor.DrawNodes | Assets/Scripts/Dialogue/Editor/DialogueEditor.cs:83-86 | After the pass, each latch holds the last node whose button was pressed, or its old value if none was. The link state and child ids are the link presses applied in draw order (`PressAll`). |
| Editor.DialogueEditor.ResolveLatches | Assets/Scripts/Dialogue/Editor/DialogueEditor.cs:90-101 | A latched create request is passed on before a latched delete request. Afterwards both latches are null. |
| Editor.DialogueEditor.OnGUI | Assets/Scripts/Dialogue/Editor/DialogueEditor.cs:67-103 | With no dialogue selected, nothing changes and nothing is requested. Otherwise the frame is the pointer event (`Step`), then the drawing pass (`PressAll`, `LatchAfter`), then create before delete. Both latches end null. |
| Scenarios.TopmostWins | Assets/Scripts/Dialogue/Editor/DialogueEditor.cs:226-237 | Of two overlapping nodes, the one drawn second is hit. |
| Scenarios.MissHitsNothing | Assets/Scripts/Dialogue/Editor/DialogueEditor.cs:226-237 | A point outside every node hits nothing. |
| Scenarios.LinkThenUnlink | Assets/Scripts/Dialogue/Editor/DialogueEditor.cs:192-222 | Four presses show link, child, link, Unlink. The parent's child ids end as before, and no proposal is left. |
| Scenarios.LinkThenCancel | Assets/Scripts/Dialogue/Editor/DialogueEditor.cs:192-205 | Two presses on one node show link, cancel and change nothing. |
| Scenarios.GrabDragRelease | Assets/Scripts/Dialogue/Editor/DialogueEditor.cs:121-155 | Press on a node at p, drag to q, release: the node moves by q - p. No gesture is left and the scroll is unchanged. |

## Left out

- Window plumbing (`ShowEditorWindow`, `OnOpenAsset`, `OnEnable` and the node style) is host UI with no logic. `OnSelectionChange` takes the selected object as a parameter, null when it is not a dialogue.
- Drawing is not modelled: the `DrawConnections` beziers, the `GUILayout` areas, the reserved 4000 x 4000 content rect and the child-text labels. These are rendering calls.
- The text field of `DrawNode` (editing `node.text`) is not modelled, because its new value comes from the GUI.
- Which buttons were clicked in a pass is an input to `OnGUI`: a set of (draw position, slot) pairs. Unity's immediate-mode button handling is not modelled.
- `Undo.RecordObject` is a foreign undo service and is treated as a no-op.
- The `Dialogue` asset's `GetAllNodes`, `GetAllChildern`, `CreateNode` and `DeleteNode` are not part of this model.
  - The node list returned by `GetAllNodes` is a parameter `allNodes`, in draw order.
  - `OnGUI` returns the `CreateNode` / `DeleteNode` calls it makes, in order, instead of performing them.
  - `GetAllNodes` is taken to return the same list during one frame. Its list is not changed by the drawing pass.
- The serialized node array of Dialogue.cs:9 is not modelled; the asset is only an identity here.
- Coordinates: Unity's float `Vector2` and `Rect` use integer coordinates here. `Rect.Contains` is the half-open box test (closed on the left and top edges, open on the right and bottom edges). Float rounding is not modelled.
- `GUI.changed = true` (a repaint hint) is not modelled.
- Editor.DialogueEditor.OnGUI: the drawing pass is specified on the child ids of the nodes in `allNodes` and of the proposing node. It does not state that no node outside those changes; the `modifies` frame guarantees that instead.
- Editor.DialogueEditor.OnGUI: `BeginScrollView` (DialogueEditor.cs:75) is assumed to return the scroll position unchanged. In Unity it can apply scrollbar or wheel input and clamp the position to the content rect, which the model does not capture. The event's `mousePosition` is taken as delivered, without the scroll view's coordinate conversion.
