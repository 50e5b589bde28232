/** The child-id list of a node as the link buttons change it: "child"
    appends an id (List.Add), "Unlink" removes its first occurrence
    (List.Remove). */
module Links {
  import opened Dialogue

  /** No id occurs twice. */
  predicate NoDuplicates(s: seq<string>) {
    forall i, j :: 0 <= i < j < |s| ==> s[i] != s[j]
  }

  /** Position of the first occurrence of x (List.IndexOf). */
  function IndexOf(s: seq<string>, x: string): (i: nat)
    requires x in s
    ensures i < |s| && s[i] == x && x !in s[..i]
  {
    if s[0] == x then 0
    else
      var j := IndexOf(s[1..], x);
      assert s[..j + 1] == [s[0]] + s[1..][..j];
      j + 1
  }

  /** C#'s List.Remove: drop the first occurrence of x; an absent x leaves
      the list as it is. */
  function RemoveFirst(s: seq<string>, x: string): (r: seq<string>)
    ensures x !in s ==> r == s
    ensures x in s ==> |r| == |s| - 1
  {
    if s == [] then []
    else if s[0] == x then s[1..]
    else [s[0]] + RemoveFirst(s[1..], x)
  }

  /** RemoveFirst cuts out exactly the element at IndexOf. */
  lemma {:induction false} RemoveFirstCutsFirst(s: seq<string>, x: string)
    requires x in s
    ensures RemoveFirst(s, x) == s[..IndexOf(s, x)] + s[IndexOf(s, x) + 1..]
  {
    if s[0] != x {
      RemoveFirstCutsFirst(s[1..], x);
      var j := IndexOf(s[1..], x);
      assert s[..j + 1] == [s[0]] + s[1..][..j];
      assert s[j + 2..] == s[1..][j + 1..];
    }
  }

  /** Removal takes exactly one copy of x out of the multiset of ids. */
  lemma {:induction false} RemoveFirstMultiset(s: seq<string>, x: string)
    ensures multiset(RemoveFirst(s, x)) == multiset(s) - multiset{x}
  {
    if s != [] {
      assert s == [s[0]] + s[1..];
      assert multiset(s) == multiset{s[0]} + multiset(s[1..]);
      if s[0] != x {
        RemoveFirstMultiset(s[1..], x);
        assert multiset(RemoveFirst(s, x)) == multiset{s[0]} + multiset(RemoveFirst(s[1..], x));
      }
    }
  }

  /** Removal only drops ids. */
  lemma {:induction false} RemoveFirstSubset(s: seq<string>, x: string, y: string)
    requires y in RemoveFirst(s, x)
    ensures y in s
  {
    if s != [] && s[0] != x && y != s[0] {
      RemoveFirstSubset(s[1..], x, y);
    }
  }

  /** "child" on an absent id, then "Unlink" on the same id, gives back the
      original list. */
  lemma {:induction false} AddThenRemove(s: seq<string>, x: string)
    requires x !in s
    ensures RemoveFirst(s + [x], x) == s
  {
    if s != [] {
      assert (s + [x])[1..] == s[1..] + [x];
      AddThenRemove(s[1..], x);
    }
  }

  /** Appending an absent id keeps the list free of duplicates. */
  lemma AddKeepsNoDuplicates(s: seq<string>, x: string)
    requires NoDuplicates(s) && x !in s
    ensures NoDuplicates(s + [x])
  {
  }

  /** The tail of a duplicate-free list is duplicate-free and lacks the
      head. */
  lemma NoDuplicatesTail(s: seq<string>)
    requires NoDuplicates(s) && s != []
    ensures NoDuplicates(s[1..]) && s[0] !in s[1..]
  {
    forall i, j | 0 <= i < j < |s| - 1 ensures s[1..][i] != s[1..][j] {
      assert s[1..][i] == s[i + 1] && s[1..][j] == s[j + 1];
    }
    forall k | 0 <= k < |s| - 1 ensures s[1..][k] != s[0] {
      assert s[1..][k] == s[k + 1];
    }
  }

  /** Removing an id keeps the list free of duplicates, and then the id is
      no longer in it. */
  lemma {:induction false} RemoveKeepsNoDuplicates(s: seq<string>, x: string)
    requires NoDuplicates(s)
    ensures NoDuplicates(RemoveFirst(s, x))
    ensures x !in RemoveFirst(s, x)
  {
    if s != [] {
      NoDuplicatesTail(s);
      if s[0] != x {
        var t := RemoveFirst(s[1..], x);
        RemoveKeepsNoDuplicates(s[1..], x);
        if s[0] in t {
          RemoveFirstSubset(s[1..], x, s[0]);
        }
        assert RemoveFirst(s, x) == [s[0]] + t;
        forall i, j | 0 <= i < j < |t| + 1 ensures ([s[0]] + t)[i] != ([s[0]] + t)[j] {
          assert ([s[0]] + t)[j] == t[j - 1];
          if i > 0 {
            assert ([s[0]] + t)[i] == t[i - 1];
          }
        }
      }
    }
  }

  /** The button DrawLinkButtons shows on `node`, given the node that is
      proposing a link and that node's child ids. */
  datatype LinkButton = Link | Cancel | Unlink | Child

  function ButtonFor(parent: DialogueNode?, parentChildren: seq<string>, node: DialogueNode): LinkButton {
    if parent == null then Link
    else if parent == node then Cancel
    else if node.uniqueID in parentChildren then Unlink
    else Child
  }

  /** Pressing the button shown on `node`: the new proposer, and the child
      ids of the old proposer afterwards. "link" makes `node` the proposer;
      every other button ends the proposal, "Unlink" removing and "child"
      appending node's id. */
  function PressOn(parent: DialogueNode?, kids: seq<string>, node: DialogueNode): (DialogueNode?, seq<string>) {
    match ButtonFor(parent, kids, node)
    case Link => (node, kids)
    case Cancel => (null, kids)
    case Unlink => (null, RemoveFirst(kids, node.uniqueID))
    case Child => (null, kids + [node.uniqueID])
  }

  /** "child" is only ever offered for another node that is not yet a
      child, so a node cannot be linked to itself and no id is added
      twice; "Unlink" is only offered for an id that is there. */
  lemma ButtonGuards(parent: DialogueNode?, kids: seq<string>, node: DialogueNode)
    ensures ButtonFor(parent, kids, node) == Child ==>
      parent != null && parent != node && node.uniqueID !in kids
    ensures ButtonFor(parent, kids, node) == Unlink ==>
      parent != null && parent != node && node.uniqueID in kids
  {
  }

  /** A press changes the proposer's child ids only through "child" and
      "Unlink", and by exactly one id. */
  lemma PressOnChangesOneId(parent: DialogueNode?, kids: seq<string>, node: DialogueNode)
    ensures var (p, k) := PressOn(parent, kids, node);
      match ButtonFor(parent, kids, node)
      case Child => k == kids + [node.uniqueID] && multiset(k) == multiset(kids) + multiset{node.uniqueID}
      case Unlink => |k| == |kids| - 1 && multiset(k) == multiset(kids) - multiset{node.uniqueID}
      case _ => k == kids
  {
    if ButtonFor(parent, kids, node) == Unlink {
      RemoveFirstMultiset(kids, node.uniqueID);
    }
  }

  /** The link state of the editor: the proposing node and the child ids of
      every node in view. */
  datatype Linking = Linking(parent: DialogueNode?, children: map<DialogueNode, seq<string>>)

  /** The proposer, if any, is one of the nodes in view. */
  predicate Tracks(l: Linking) {
    l.parent != null ==> l.parent in l.children
  }

  /** Pressing the link button shown on `node`, for the whole view. */
  function Press(l: Linking, node: DialogueNode): (r: Linking)
    requires Tracks(l) && node in l.children
    ensures Tracks(r) && r.children.Keys == l.children.Keys
    ensures forall n :: n in l.children && n != l.parent ==> r.children[n] == l.children[n]
  {
    if l.parent == null then Linking(node, l.children)
    else
      var (p, k) := PressOn(l.parent, l.children[l.parent], node);
      Linking(p, l.children[l.parent := k])
  }

  /** Every child list is free of duplicates. */
  predicate AllNoDuplicates(m: map<DialogueNode, seq<string>>) {
    forall n :: n in m ==> NoDuplicates(m[n])
  }

  /** The link buttons never create a duplicate child id. */
  lemma PressKeepsNoDuplicates(l: Linking, node: DialogueNode)
    requires Tracks(l) && node in l.children && AllNoDuplicates(l.children)
    ensures AllNoDuplicates(Press(l, node).children)
  {
    if l.parent != null {
      var kids := l.children[l.parent];
      match ButtonFor(l.parent, kids, node)
      case Unlink => RemoveKeepsNoDuplicates(kids, node.uniqueID);
      case Child => AddKeepsNoDuplicates(kids, node.uniqueID);
      case _ =>
    }
  }

  /** "link" on P, "child" on N, "link" on P, "Unlink" on N: the child ids
      are as before and no link is pending. */
  lemma {:induction false} LinkThenUnlinkRestores(l: Linking, p: DialogueNode, n: DialogueNode)
    requires l.parent == null && p in l.children && n in l.children && p != n
    requires n.uniqueID !in l.children[p]
    ensures Press(Press(Press(Press(l, p), n), p), n) == l
  {
    var kids := l.children[p];
    var l2 := Press(Press(l, p), n);
    assert l2 == Linking(null, l.children[p := kids + [n.uniqueID]]);
    AddThenRemove(kids, n.uniqueID);
    assert l.children[p := kids] == l.children;
  }

  /** "link" then "cancel" on the same node changes nothing. */
  lemma LinkThenCancel(l: Linking, p: DialogueNode)
    requires l.parent == null && p in l.children
    ensures Press(Press(l, p), p) == l
  {
    assert l.children[p := l.children[p]] == l.children;
  }
}
