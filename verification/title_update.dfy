/** The in-place title edit performed by `updateItemTitle`, as a pure
    function on forests, together with the two views that say what it
    changes: the shape view (`Erase`: ids, types and tree structure, titles
    blanked) and the label view (`Labels`: each node's id, title and type in
    pre-order, children dropped). The two views together determine a forest,
    so stating the edit's effect on both states it completely. */
module TitleUpdate {
  import opened Wrappers
  import opened NodeFinder

  /** Rewrites the title of the node `FindNode(f, id)` returns, leaving the
      rest of the forest as it was. */
  function UpdateTitle(f: Forest, id: string, t: string): (g: Forest)
    ensures |g| == |f|
  {
    if f == [] then []
    else if f[0].id == id then [f[0].(title := t)] + f[1..]
    else if FindNode(f[0].children, id).Some? then
      [f[0].(children := UpdateTitle(f[0].children, id, t))] + f[1..]
    else [f[0]] + UpdateTitle(f[1..], id, t)
  }

  /** Shape view: the forest with every title blanked. */
  function Erase(f: Forest): (e: Forest)
    ensures |e| == |f|
    ensures CountNodes(e) == CountNodes(f)
  {
    if f == [] then []
    else [Node(f[0].id, "", f[0].itemType, Erase(f[0].children))] + Erase(f[1..])
  }

  /** A node's own label: the node with its children dropped. */
  function Label(n: Node): Node
  {
    n.(children := [])
  }

  /** Label view: the label of every node, in pre-order. */
  function Labels(f: Forest): (l: seq<Node>)
    ensures |l| == |Preorder(f)|
  {
    var p := Preorder(f);
    seq(|p|, k requires 0 <= k < |p| => Label(p[k]))
  }

  lemma LabelsUnfold(f: Forest)
    requires f != []
    ensures Labels(f) == [Label(f[0])] + Labels(f[0].children) + Labels(f[1..])
  {
    var pc, pr := Preorder(f[0].children), Preorder(f[1..]);
    assert Preorder(f) == [f[0]] + pc + pr;
  }

  /** Shape and labels together pin a forest down. */
  lemma {:induction false} ViewsDetermineForest(f: Forest, g: Forest)
    requires Erase(f) == Erase(g)
    requires Labels(f) == Labels(g)
    ensures f == g
  {
    if f != [] {
      var fc, gc := f[0].children, g[0].children;
      assert Erase(f)[0] == Erase(g)[0];
      assert Erase(fc) == Erase(gc);
      assert Erase(f[1..]) == Erase(g[1..]);
      CountIsPreorderLength(fc);
      CountIsPreorderLength(gc);
      LabelsUnfold(f);
      LabelsUnfold(g);
      var lf, lg := Labels(f), Labels(g);
      assert |Labels(fc)| == |Labels(gc)|;
      assert lf[0] == lg[0];
      assert Labels(fc) == lf[1..1 + |Labels(fc)|] == lg[1..1 + |Labels(gc)|] == Labels(gc);
      assert Labels(f[1..]) == lf[1 + |Labels(fc)|..] == lg[1 + |Labels(gc)|..] == Labels(g[1..]);
      ViewsDetermineForest(fc, gc);
      ViewsDetermineForest(f[1..], g[1..]);
      assert f[0] == g[0];
      assert f == [f[0]] + f[1..];
    }
  }

  /** The edit never changes ids, types or the tree structure. */
  lemma {:induction false} UpdateTitleKeepsShape(f: Forest, id: string, t: string)
    ensures Erase(UpdateTitle(f, id, t)) == Erase(f)
  {
    if f != [] && f[0].id != id {
      if FindNode(f[0].children, id).Some? {
        UpdateTitleKeepsShape(f[0].children, id, t);
      } else {
        UpdateTitleKeepsShape(f[1..], id, t);
      }
    }
  }

  /** When no node carries the id, the forest is returned unchanged. */
  lemma {:induction false} UpdateTitleAbsent(f: Forest, id: string, t: string)
    requires FindNode(f, id).None?
    ensures UpdateTitle(f, id, t) == f
  {
    if f != [] {
      UpdateTitleAbsent(f[1..], id, t);
    }
  }

  /** Updating one element of the middle part of a concatenation. */
  lemma UpdateInMiddle(a: seq<Node>, b: seq<Node>, c: seq<Node>, k: nat, x: Node)
    requires k < |b|
    ensures a + b[k := x] + c == (a + b + c)[|a| + k := x]
  {
  }

  /** `after` is `before` with only the title at position `k` replaced. */
  predicate RetitledAt(before: seq<Node>, after: seq<Node>, k: nat, t: string)
  {
    k < |before| && after == before[k := before[k].(title := t)]
  }

  /** Where the first match of a non-empty forest sits in its pre-order
      listing, from where it sits in the children and in the later roots. */
  lemma FirstIndexUnfold(f: Forest, id: string)
    requires f != []
    ensures FirstIndex(Preorder(f), id) ==
      if f[0].id == id then Some(0)
      else
        match FirstIndex(Preorder(f[0].children), id)
        case Some(k) => Some(1 + k)
        case None =>
          match FirstIndex(Preorder(f[1..]), id)
          case Some(k) => Some(1 + |Preorder(f[0].children)| + k)
          case None => None
  {
    var pc, pr := Preorder(f[0].children), Preorder(f[1..]);
    assert Preorder(f) == [f[0]] + (pc + pr);
    FirstIndexAppend([f[0]], pc + pr, id);
    FirstIndexAppend(pc, pr, id);
  }

  /** Label view of the edit: exactly the label at the first pre-order
      position carrying the id gets the new title; every other label, and
      the whole forest when the id is absent, stays as it was. */
  lemma {:induction false} UpdateTitleLabels(f: Forest, id: string, t: string)
    ensures
      match FirstIndex(Preorder(f), id)
      case None => UpdateTitle(f, id, t) == f
      case Some(k) => RetitledAt(Labels(f), Labels(UpdateTitle(f, id, t)), k, t)
  {
    FindNodeIsFirstPreorderMatch(f, id);
    if FirstIndex(Preorder(f), id).None? {
      UpdateTitleAbsent(f, id, t);
    } else {
      var c, rest := f[0].children, f[1..];
      FirstIndexUnfold(f, id);
      if f[0].id == id {
        UpdateTitleLabelsAtRoot(f, id, t);
      } else {
        FindNodeIsFirstPreorderMatch(c, id);
        if FindNode(c, id).Some? {
          UpdateTitleLabels(c, id, t);
          UpdateTitleLabelsInChildren(f, id, t, FirstIndex(Preorder(c), id).value);
        } else {
          UpdateTitleLabels(rest, id, t);
          UpdateTitleLabelsInRest(f, id, t, FirstIndex(Preorder(rest), id).value);
        }
      }
    }
  }

  lemma UpdateTitleLabelsAtRoot(f: Forest, id: string, t: string)
    requires f != [] && f[0].id == id
    ensures RetitledAt(Labels(f), Labels(UpdateTitle(f, id, t)), 0, t)
  {
    var n' := f[0].(title := t);
    var g := [n'] + f[1..];
    assert UpdateTitle(f, id, t) == g;
    assert g[0] == n' && g[1..] == f[1..];
    LabelsUnfold(f);
    LabelsUnfold(g);
    var tail := Labels(f[0].children) + Labels(f[1..]);
    UpdateInMiddle([], [Label(f[0])], tail, 0, Label(n'));
    assert Labels(f) == [] + [Label(f[0])] + tail;
    assert Labels(g) == [] + [Label(f[0])][0 := Label(n')] + tail;
  }

  lemma UpdateTitleLabelsInChildren(f: Forest, id: string, t: string, kc: nat)
    requires f != [] && f[0].id != id
    requires FindNode(f[0].children, id).Some?
    requires RetitledAt(Labels(f[0].children), Labels(UpdateTitle(f[0].children, id, t)), kc, t)
    ensures RetitledAt(Labels(f), Labels(UpdateTitle(f, id, t)), 1 + kc, t)
  {
    var c := f[0].children;
    var g := UpdateTitle(f, id, t);
    LabelsUnfold(f);
    LabelsUnfold(g);
    assert g[0] == f[0].(children := UpdateTitle(c, id, t)) && g[1..] == f[1..];
    assert Label(g[0]) == Label(f[0]);
    UpdateInMiddle([Label(f[0])], Labels(c), Labels(f[1..]), kc, Labels(c)[kc].(title := t));
  }

  lemma UpdateTitleLabelsInRest(f: Forest, id: string, t: string, kr: nat)
    requires f != [] && f[0].id != id
    requires FindNode(f[0].children, id).None?
    requires RetitledAt(Labels(f[1..]), Labels(UpdateTitle(f[1..], id, t)), kr, t)
    ensures RetitledAt(Labels(f), Labels(UpdateTitle(f, id, t)), 1 + |Preorder(f[0].children)| + kr, t)
  {
    var c, rest := f[0].children, f[1..];
    var g := UpdateTitle(f, id, t);
    LabelsUnfold(f);
    LabelsUnfold(g);
    assert g[0] == f[0] && g[1..] == UpdateTitle(rest, id, t);
    UpdateInMiddle([Label(f[0])] + Labels(c), Labels(rest), [], kr, Labels(rest)[kr].(title := t));
    assert Labels(f) == [Label(f[0])] + Labels(c) + Labels(rest) + [];
  }

  /** The node the search now finds is the node it found before, carrying
      the new title (its own subtree untouched). */
  lemma {:induction false} UpdateTitleFind(f: Forest, id: string, t: string)
    ensures FindNode(UpdateTitle(f, id, t), id) ==
      match FindNode(f, id)
      case None => None
      case Some(n) => Some(n.(title := t))
  {
    if f != [] && f[0].id != id {
      var g := UpdateTitle(f, id, t);
      if FindNode(f[0].children, id).Some? {
        UpdateTitleFind(f[0].children, id, t);
        assert g[0] == f[0].(children := UpdateTitle(f[0].children, id, t));
      } else {
        UpdateTitleFind(f[1..], id, t);
        assert g[0] == f[0] && g[1..] == UpdateTitle(f[1..], id, t);
      }
    }
  }

  /** The edit keeps the node count. */
  lemma UpdateTitleKeepsCount(f: Forest, id: string, t: string)
    ensures CountNodes(UpdateTitle(f, id, t)) == CountNodes(f)
  {
    UpdateTitleKeepsShape(f, id, t);
  }
}
