/** Work-item nodes and the two traversals the hierarchy state container
    relies on: counting every node of a forest, and finding the first node
    with a given id in pre-order.

    The repository's `WorkItemNodeFinder` file is not part of this model, so
    the behaviour of `countNodesRecursive` and `findNodeRecursive` below is
    assumed (every node counts one; pre-order search, first match wins): the
    container only calls them and does not fix the order. Each is paired with an
    independent reference definition over the flat pre-order listing of the
    forest (`Preorder`), and the lemmas connect the two. */
module NodeFinder {
  import opened Wrappers

  /** The work-item type tag (`WorkItemTypeName`), kept as its text. */
  type TypeName = string

  /** One work item under construction. Fields of the source's node other
      than id, title, type and children are not modelled. */
  datatype Node = Node(id: string, title: string, itemType: TypeName, children: seq<Node>)

  /** A hierarchy: an ordered sequence of independent roots. */
  type Forest = seq<Node>

  /** `countNodesRecursive`: every node at every depth counts one. */
  function CountNodes(f: Forest): (n: nat)
    ensures n >= |f|
  {
    if f == [] then 0 else 1 + CountNodes(f[0].children) + CountNodes(f[1..])
  }

  /** `findNodeRecursive`: depth-first, a node before its children, children
      in order, the first match wins. */
  function FindNode(f: Forest, id: string): (r: Option<Node>)
    ensures r.Some? ==> r.value.id == id
  {
    if f == [] then None
    else if f[0].id == id then Some(f[0])
    else
      match FindNode(f[0].children, id)
      case Some(n) => Some(n)
      case None => FindNode(f[1..], id)
  }

  /** Reference view: every node of the forest (with its subtree), listed in
      pre-order. */
  function Preorder(f: Forest): seq<Node>
  {
    if f == [] then [] else [f[0]] + Preorder(f[0].children) + Preorder(f[1..])
  }

  /** Reference search over a flat listing: the position of the first node
      carrying `id`. */
  function FirstIndex(s: seq<Node>, id: string): (r: Option<nat>)
    ensures r.Some? ==> r.value < |s| && s[r.value].id == id
    ensures r.Some? ==> forall j :: 0 <= j < r.value ==> s[j].id != id
    ensures r.None? ==> forall j :: 0 <= j < |s| ==> s[j].id != id
  {
    if s == [] then None
    else if s[0].id == id then Some(0)
    else
      match FirstIndex(s[1..], id)
      case None => None
      case Some(k) => Some(k + 1)
  }

  /** Searching a concatenation searches the left part first. */
  lemma {:induction false} FirstIndexAppend(a: seq<Node>, b: seq<Node>, id: string)
    ensures FirstIndex(a + b, id) ==
      match FirstIndex(a, id)
      case Some(k) => Some(k)
      case None =>
        match FirstIndex(b, id)
        case Some(k) => Some(|a| + k)
        case None => None
  {
    if a == [] {
      assert a + b == b;
    } else if a[0].id != id {
      assert (a + b)[0] == a[0];
      assert (a + b)[1..] == a[1..] + b;
      FirstIndexAppend(a[1..], b, id);
    }
  }

  /** The count is the length of the pre-order listing: each node once. */
  lemma {:induction false} CountIsPreorderLength(f: Forest)
    ensures CountNodes(f) == |Preorder(f)|
  {
    if f != [] {
      CountIsPreorderLength(f[0].children);
      CountIsPreorderLength(f[1..]);
    }
  }

  /** Counting is additive over concatenated forests. */
  lemma {:induction false} CountAppend(a: Forest, b: Forest)
    ensures CountNodes(a + b) == CountNodes(a) + CountNodes(b)
  {
    if a == [] {
      assert a + b == b;
    } else {
      assert (a + b)[0] == a[0];
      assert (a + b)[1..] == a[1..] + b;
      CountAppend(a[1..], b);
    }
  }

  /** `findNodeRecursive` returns exactly the node at the first pre-order
      position carrying the id, and nothing when no position carries it. */
  lemma {:induction false} FindNodeIsFirstPreorderMatch(f: Forest, id: string)
    ensures
      match FirstIndex(Preorder(f), id)
      case None => FindNode(f, id) == None
      case Some(k) => FindNode(f, id) == Some(Preorder(f)[k])
  {
    if f != [] {
      var n, c, rest := f[0], f[0].children, f[1..];
      var pc, pr := Preorder(c), Preorder(rest);
      assert Preorder(f) == [n] + (pc + pr);
      FirstIndexAppend([n], pc + pr, id);
      if n.id != id {
        assert FirstIndex([n], id) == None;
        FirstIndexAppend(pc, pr, id);
        FindNodeIsFirstPreorderMatch(c, id);
        match FirstIndex(pc, id)
        case Some(k) =>
          assert Preorder(f)[1 + k] == pc[k];
        case None =>
          FindNodeIsFirstPreorderMatch(rest, id);
          match FirstIndex(pr, id)
          case Some(k) =>
            assert Preorder(f)[1 + |pc| + k] == pr[k];
          case None =>
      }
    }
  }

  /** Soundness and completeness of the search against the pre-order view:
      a result carries the id and is a node of the forest; no result means no
      node of the forest carries the id. */
  lemma FindNodeSoundComplete(f: Forest, id: string)
    ensures FindNode(f, id).Some? ==> FindNode(f, id).value.id == id
    ensures FindNode(f, id).Some? ==> FindNode(f, id).value in Preorder(f)
    ensures FindNode(f, id).None? <==> forall n :: n in Preorder(f) ==> n.id != id
  {
    FindNodeIsFirstPreorderMatch(f, id);
    var p := Preorder(f);
    if FindNode(f, id).None? {
      forall n | n in p ensures n.id != id {
        var j :| 0 <= j < |p| && p[j] == n;
      }
    }
  }
}
