/** The entities the editor works on. */
module Dialogue {
  import opened Geometry

  /** The edited dialogue asset. Only its identity matters here: its node
      operations (GetAllNodes, CreateNode, DeleteNode) are not part of this
      model. */
  class Dialogue {
  }

  /** One dialogue line. The editor moves it (rect.position) and edits its
      outgoing links (children, a list of child ids). */
  class DialogueNode {
    const uniqueID: string
    var text: string
    var rect: Rect
    var children: seq<string>
  }

  /** The node, if any, as a set: the frame of a field access through a
      reference that may be null. */
  function AsSet(n: DialogueNode?): set<DialogueNode> {
    if n == null then {} else {n}
  }

  /** A node's child ids; none for a missing node. */
  function ChildIds(n: DialogueNode?): seq<string>
    reads AsSet(n)`children
  {
    if n == null then [] else n.children
  }
}
