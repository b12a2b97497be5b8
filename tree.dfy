/**
 * The dense tree itself: a vector of nodes linked by index, and the head
 * of a free list of erased slots.  Nothing ever puts a slot on the free list
 * (erased nodes stay in the vector, unlinked), so its head is always the null
 * link; `Valid` records that together with the shape of the links.
 *
 * Beside the vector the class keeps, as ghost state, the child list each
 * node's links are meant to encode.  `WellLinked` says that they do.  Every
 * operation keeps `Valid`; insertion, clearing and erasing children also keep
 * `WellLinked`, while `erase` as written does not: it splices a node out of
 * its sibling chain without moving its parent's first or last child link.
 * `EraseCorrected` relinks the parent and keeps `WellLinked`.
 */
module CarlTree {
  import opened TreeNodes
  import opened TreeIterators

  /** The node vector after `insert(p, data)`: a new last child of `p`, one level deeper. */
  function InsertOf<T>(ns: seq<Node<T>>, p: nat, data: T): seq<Node<T>>
    requires Shaped(ns) && p < |ns|
  {
    assert NodeShaped(ns, p);
    Attach(ns, data, p, ns[p].depth + 1)
  }

  /** The node vector after `erase(id)` as written: the children `k` cleared, then the splice. */
  function EraseOf<T>(ns: seq<Node<T>>, id: nat, k: seq<nat>): seq<Node<T>>
    requires Shaped(ns) && id < |ns|
  {
    ClearedShaped(ns, id, k);
    var c := Cleared(ns, id, k);
    assert NodeShaped(c, id);
    Unlink(c, id)
  }

  /** The node vector after the corrected erase: as written, but the parent's ends relinked. */
  function EraseCorrectedOf<T>(ns: seq<Node<T>>, id: nat, k: seq<nat>): seq<Node<T>>
    requires Shaped(ns) && 0 < id < |ns|
  {
    ClearedShaped(ns, id, k);
    var c := Cleared(ns, id, k);
    assert NodeShaped(c, id);
    UnlinkCorrected(c, id)
  }

  /** Where `erase` moves its pre-order position: the successor of `id` once its children are gone. */
  function ErasePosition<T>(ns: seq<Node<T>>, id: nat, k: seq<nat>): nat
    requires Shaped(ns) && id < |ns|
  {
    ClearedShaped(ns, id, k);
    PreorderNextOf(Cleared(ns, id, k), id)
  }

  class Tree<T> {
    var nodes: seq<Node<T>>
    /** Head of the free list of erased slots. */
    var emptyNodes: nat
    /** The child list of every node, in sibling order. */
    ghost var kids: seq<seq<nat>>

    /** The free list is empty, the links are shaped, and there is a child list per node. */
    ghost predicate Valid()
      reads this
    {
      emptyNodes == MAXINT && Shaped(nodes) && |kids| == |nodes|
    }

    /** The links encode the child lists. */
    ghost predicate WellLinked()
      reads this
    {
      Linked(nodes, kids)
    }

    constructor()
      ensures nodes == [] && Valid() && WellLinked()
    {
      nodes := [];
      emptyNodes := MAXINT;
      kids := [];
    }

    /**
     * `setRoot`: a root with `data` in an empty tree, else only the root's
     * data replaced.  The position returned is the end, not the root.
     */
    method SetRoot(data: T) returns (it: nat)
      requires Valid()
      modifies this
      ensures Valid() && (old(WellLinked()) ==> WellLinked())
      ensures old(nodes) == [] ==> nodes == [NewLeaf(0, data, MAXINT, 0)] && kids == [[]]
      ensures old(nodes) != [] ==> nodes == old(nodes)[0 := old(nodes)[0].(data := data)] && kids == old(kids)
      ensures it == MAXINT
    {
      if |nodes| == 0 {
        nodes := [NewLeaf(0, data, MAXINT, 0)];
        kids := [[]];
        assert NodeShaped(nodes, 0);
        assert ChildList(nodes, kids, 0);
      } else {
        Relabelled(nodes, kids, 0, data);
        nodes := nodes[0 := nodes[0].(data := data)];
      }
      it := MAXINT;
    }

    /** `clear`. */
    method Clear()
      modifies this
      ensures nodes == [] && kids == [] && Valid() && WellLinked()
    {
      nodes := [];
      emptyNodes := MAXINT;
      kids := [];
    }

    /**
     * `newNode`: with the free list empty, a new leaf at the end of the
     * vector, appended to the children of `parent` unless that is null.  The
     * free-list branch declares a second `res`, so the index returned from
     * it is 0 whichever slot was reused.
     */
    method NewNode(data: T, parent: nat, depth: nat) returns (res: nat)
      requires emptyNodes == MAXINT || emptyNodes < |nodes|
      requires parent == MAXINT || (parent < |nodes| && (nodes[parent].lastChild == MAXINT || nodes[parent].lastChild < |nodes|))
      modifies this
      ensures kids == old(kids)
      ensures old(emptyNodes) == MAXINT ==> emptyNodes == MAXINT && res == old(|nodes|) && nodes == Attach(old(nodes), data, parent, depth)
      ensures old(emptyNodes) != MAXINT ==> res == 0 && |nodes| == old(|nodes|)
    {
      res := 0;
      if emptyNodes == MAXINT {
        nodes := nodes + [NewLeaf(|nodes|, data, parent, depth)];
        res := |nodes| - 1;
      } else {
        var res := emptyNodes;
        emptyNodes := nodes[emptyNodes].nextSibling;
        nodes := nodes[res := nodes[res].(data := data, parent := parent, depth := depth, nextSibling := MAXINT)];
      }
      if parent != MAXINT {
        if nodes[parent].lastChild != MAXINT {
          var last := nodes[parent].lastChild;
          nodes := nodes[last := nodes[last].(nextSibling := res)];
          nodes := nodes[res := nodes[res].(previousSibling := nodes[parent].lastChild)];
          nodes := nodes[parent := nodes[parent].(lastChild := res)];
        } else {
          nodes := nodes[parent := nodes[parent].(firstChild := res)];
          nodes := nodes[parent := nodes[parent].(lastChild := res)];
        }
      }
    }

    /** `insert(position, data)`: a new last child of `position`, one level deeper. */
    method InsertAt(position: nat, data: T) returns (id: nat)
      requires Valid() && position < |nodes| && |nodes| + 1 < MAXINT
      modifies this
      ensures Valid()
      ensures id == old(|nodes|) && nodes == InsertOf(old(nodes), position, data)
      ensures |nodes| == old(|nodes|) + 1 && nodes[id].parent == position && nodes[id].depth == nodes[position].depth + 1
      ensures kids == old(kids[position := kids[position] + [|nodes|]] + [[]])
      ensures old(WellLinked() && Live(nodes, kids, position)) ==> WellLinked()
    {
      ghost var ns0, kids0 := nodes, kids;
      assert NodeShaped(nodes, position);
      var depth := nodes[position].depth + 1;
      id := NewNode(data, position, depth);
      AttachAppends(ns0, data, position, depth);
      AppendedShaped(ns0, nodes, data, position, depth);
      kids := kids0[position := kids0[position] + [|ns0|]] + [[]];
      if Linked(ns0, kids0) && Live(ns0, kids0, position) {
        AppendedLinked(ns0, nodes, kids0, data, position, depth);
      }
    }

    /** `insert(data)`: a new last child of the root, after creating a root with `default` in an empty tree. */
    method Insert(data: T, default: T) returns (id: nat)
      requires Valid() && |nodes| + 2 < MAXINT
      modifies this
      ensures Valid()
      ensures old(nodes) == [] ==> nodes == InsertOf([NewLeaf(0, default, MAXINT, 0)], 0, data)
      ensures old(nodes) != [] ==> nodes == InsertOf(old(nodes), 0, data)
      ensures id == |nodes| - 1 && nodes[id].parent == 0 && nodes[id].depth == 1
      ensures old(WellLinked()) ==> WellLinked()
    {
      if |nodes| == 0 {
        var root := SetRoot(default);
      }
      assert NodeShaped(nodes, 0);
      id := InsertAt(0, data);
    }

    /** `eraseNode`: a leaf's sibling links replaced by the free-list head and the null link. */
    method EraseNode(id: nat)
      requires id < |nodes| && nodes[id].firstChild == MAXINT
      modifies this
      ensures nodes == old(nodes[id := nodes[id].(nextSibling := emptyNodes, previousSibling := MAXINT)])
      ensures emptyNodes == old(emptyNodes) && kids == old(kids)
    {
      nodes := nodes[id := nodes[id].(nextSibling := emptyNodes)];
      nodes := nodes[id := nodes[id].(previousSibling := MAXINT)];
    }

    /**
     * `eraseChildren`: every child of `id`, each of which must be a leaf,
     * detached along the sibling chain, then `id` left without children.
     */
    method EraseChildren(id: nat)
      requires Valid() && WellLinked() && id < |nodes|
      requires forall j :: 0 <= j < |kids[id]| && kids[id][j] < |nodes| ==> nodes[kids[id][j]].firstChild == MAXINT
      modifies this
      ensures nodes == Cleared(old(nodes), id, old(kids[id]))
      ensures kids == old(kids[id := []])
      ensures Valid() && WellLinked()
    {
      ghost var ns0, kids0, k := nodes, kids, kids[id];
      assert NodeShaped(ns0, id);
      NotKidOf(ns0, kids0, id, id);
      LeafHasNoKids(nodes, kids, id);
      if nodes[id].firstChild == MAXINT {
        kids := kids[id := []];
        assert nodes == Cleared(ns0, id, k);
        ClearedShaped(ns0, id, k);
        ClearedLinked(ns0, kids0, id);
        return;
      }
      EndsOf(nodes, kids, id);
      assert |ns0| < MAXINT;
      var cur := nodes[id].firstChild;
      ghost var i: nat := 0;
      while cur != MAXINT
        invariant i <= |k| && nodes == Detaching(ns0, k, i)
        invariant cur == (if i < |k| then k[i] else MAXINT)
        invariant emptyNodes == MAXINT && kids == kids0
        decreases |k| - i
      {
        DetachingStep(ns0, kids0, id, i);
        var tmp := cur;
        cur := nodes[cur].nextSibling;
        EraseNode(tmp);
        i := i + 1;
      }
      nodes := nodes[id := nodes[id].(firstChild := MAXINT)];
      nodes := nodes[id := nodes[id].(lastChild := MAXINT)];
      kids := kids[id := []];
      DetachingDone(ns0, id, k);
      ClearedShaped(ns0, id, k);
      ClearedLinked(ns0, kids0, id);
    }

    /**
     * `erase` as written.  The root clears the tree.  Any other node loses
     * its children, the position steps on in pre-order, and the node is
     * spliced out of its sibling chain and detached; the vector keeps its
     * length, and the parent's first and last child are not updated.
     */
    method Erase(position: nat) returns (next: nat)
      requires Valid() && WellLinked() && Live(nodes, kids, position)
      requires forall j :: 0 <= j < |kids[position]| && kids[position][j] < |nodes| ==> nodes[kids[position][j]].firstChild == MAXINT
      modifies this
      ensures Valid()
      ensures position == 0 ==> nodes == [] && next == MAXINT
      ensures position != 0 ==> nodes == EraseOf(old(nodes), position, old(kids[position]))
      ensures position != 0 ==> next == ErasePosition(old(nodes), position, old(kids[position]))
    {
      if position == 0 {
        Clear();
        next := MAXINT;
        return;
      }
      ghost var ns0, kids0 := nodes, kids;
      assert NodeShaped(ns0, position);
      EraseChildren(position);
      next := PreorderNext(nodes, position);
      assert kids[ns0[position].parent] == kids0[ns0[position].parent];
      SpliceOut(position);
    }

    /**
     * The splice at the end of `erase` as written: the next sibling's
     * previous link and the previous sibling's next link bypass `id`, and
     * `id` is detached.
     */
    method SpliceOut(id: nat)
      requires Valid() && WellLinked() && Live(nodes, kids, id) && id != 0
      requires kids[id] == [] && nodes[id].firstChild == MAXINT && NodeShaped(nodes, id)
      modifies this
      ensures Valid() && |kids| == old(|kids|)
      ensures nodes == Unlink(old(nodes), id)
    {
      ghost var ns1, kids1 := nodes, kids;
      UnlinkSplices(ns1, kids1, id);
      ghost var j := PositionOf(ns1, kids1, id);
      Neighbours(ns1, kids1, id, j);
      if nodes[id].nextSibling != MAXINT {
        nodes := nodes[nodes[id].nextSibling := nodes[nodes[id].nextSibling].(previousSibling := nodes[id].previousSibling)];
      }
      if nodes[id].previousSibling != MAXINT {
        nodes := nodes[nodes[id].previousSibling := nodes[nodes[id].previousSibling].(nextSibling := nodes[id].nextSibling)];
      }
      EraseNode(id);
      assert nodes == Unlink(ns1, id);
      SplicedShaped(ns1, nodes, kids1, id, false);
      kids := kids1[ns1[id].parent := Without(kids1[ns1[id].parent], j)];
    }

    /**
     * `erase` with the parent relinked: a node without a next sibling hands
     * its parent's last-child link to its previous sibling, and one without
     * a previous sibling hands the first-child link to its next sibling.
     * This keeps the child lists encoded, with the erased node dropped from
     * its parent's list.
     */
    method EraseCorrected(position: nat) returns (next: nat)
      requires Valid() && WellLinked() && Live(nodes, kids, position)
      requires forall j :: 0 <= j < |kids[position]| && kids[position][j] < |nodes| ==> nodes[kids[position][j]].firstChild == MAXINT
      modifies this
      ensures Valid() && WellLinked()
      ensures position == 0 ==> nodes == [] && next == MAXINT
      ensures position != 0 ==> nodes == EraseCorrectedOf(old(nodes), position, old(kids[position]))
      ensures position != 0 ==> next == ErasePosition(old(nodes), position, old(kids[position]))
      ensures position != 0 ==>
                var p := old(nodes[position].parent);
                exists j :: 0 <= j < |old(kids[p])| && old(kids[p])[j] == position &&
                            kids == old(kids)[position := []][p := Without(old(kids[p]), j)]
    {
      if position == 0 {
        Clear();
        next := MAXINT;
        return;
      }
      ghost var ns0, kids0 := nodes, kids;
      assert NodeShaped(ns0, position);
      EraseChildren(position);
      next := PreorderNext(nodes, position);
      assert kids[ns0[position].parent] == kids0[ns0[position].parent];
      SpliceOutCorrected(position);
    }

    /** The splice of `EraseCorrected`: as in `SpliceOut`, and the parent's ends moved off `id`. */
    method SpliceOutCorrected(id: nat)
      requires Valid() && WellLinked() && Live(nodes, kids, id) && id != 0
      requires kids[id] == [] && nodes[id].firstChild == MAXINT && NodeShaped(nodes, id)
      modifies this
      ensures Valid() && WellLinked()
      ensures nodes == UnlinkCorrected(old(nodes), id)
      ensures var p := old(nodes[id].parent);
              exists j :: 0 <= j < |old(kids[p])| && old(kids[p])[j] == id && kids == old(kids)[p := Without(old(kids[p]), j)]
    {
      ghost var ns1, kids1 := nodes, kids;
      UnlinkSplices(ns1, kids1, id);
      ghost var j := PositionOf(ns1, kids1, id);
      Neighbours(ns1, kids1, id, j);
      var p := nodes[id].parent;
      if nodes[id].nextSibling != MAXINT {
        nodes := nodes[nodes[id].nextSibling := nodes[nodes[id].nextSibling].(previousSibling := nodes[id].previousSibling)];
      } else {
        nodes := nodes[p := nodes[p].(lastChild := nodes[id].previousSibling)];
      }
      if nodes[id].previousSibling != MAXINT {
        nodes := nodes[nodes[id].previousSibling := nodes[nodes[id].previousSibling].(nextSibling := nodes[id].nextSibling)];
      } else {
        nodes := nodes[p := nodes[p].(firstChild := nodes[id].nextSibling)];
      }
      EraseNode(id);
      assert nodes == UnlinkCorrected(ns1, id);
      SplicedShaped(ns1, nodes, kids1, id, true);
      SplicedLinked(ns1, nodes, kids1, id, j);
      kids := kids1[p := Without(kids1[p], j)];
    }
  }

  /** A root with two leaf children, 1 then 2. */
  function TwoChildren<T>(d: T): seq<Node<T>>
  {
    [Node(0, d, MAXINT, MAXINT, MAXINT, 1, 2, 0),
     Node(1, d, 0, MAXINT, 2, MAXINT, MAXINT, 1),
     Node(2, d, 0, 1, MAXINT, MAXINT, MAXINT, 1)]
  }

  /** The tree above is shaped and encodes the child lists [1, 2] for the root and none for the leaves. */
  lemma TwoChildrenLinked<T>(d: T)
    ensures Shaped(TwoChildren(d)) && Linked(TwoChildren(d), [[1, 2], [], []])
  {
    var ns := TwoChildren(d);
    assert NodeShaped(ns, 0) && NodeShaped(ns, 1) && NodeShaped(ns, 2);
    var kids := [[1, 2], [], []];
    assert ChildList(ns, kids, 0) && ChildList(ns, kids, 1) && ChildList(ns, kids, 2);
  }

  /**
   * Erasing the first of two children as written leaves the root's first
   * child link on the erased node, whose sibling links are now null: walking
   * the root's children meets only the erased node and never the surviving
   * child 2, which the root still names as its last child.
   */
  lemma EraseOrphansLaterSiblings<T>(d: T)
    ensures Shaped(TwoChildren(d))
    ensures var w := EraseOf(TwoChildren(d), 1, []);
            && w[0].firstChild == 1 && w[0].lastChild == 2 && w[2].parent == 0
            && SiblingWalk(w, w[0].firstChild, 3) == [1]
  {
    TwoChildrenLinked(d);
    assert Cleared(TwoChildren(d), 1, []) == TwoChildren(d);
  }

  /** The corrected erase of the same node leaves the root with the child list [2]. */
  lemma EraseCorrectedKeepsSibling<T>(d: T)
    ensures Shaped(TwoChildren(d))
    ensures var c := EraseCorrectedOf(TwoChildren(d), 1, []);
            && Linked(c, [[2], [], []])
            && SiblingWalk(c, c[0].firstChild, 3) == [2]
  {
    TwoChildrenLinked(d);
    var ns := TwoChildren(d);
    assert Cleared(ns, 1, []) == ns;
    var c := EraseCorrectedOf(ns, 1, []);
    var kc := [[2], [], []];
    assert ChildList(c, kc, 0) && ChildList(c, kc, 1) && ChildList(c, kc, 2);
  }

  /** After the as-written erase above, the links encode no child lists at all. */
  lemma EraseAsWrittenUnlinks<T>(d: T, kids: seq<seq<nat>>)
    ensures !Linked(EraseOf(TwoChildren(d), 1, []), kids)
  {
    EraseOrphansLaterSiblings(d);
    var w := EraseOf(TwoChildren(d), 1, []);
    if Linked(w, kids) {
      EndsOf(w, kids, 0);
      ChildAt(w, kids, 0, 0);
    }
  }
}
