/**
 * The node vector of the dense `Tree<T>`: nodes live in one vector and are
 * linked by index (parent, previous and next sibling, first and last child),
 * with `MAXINT` as the null link.  This module holds the node record, the
 * shape every reachable state has, the child lists a well-linked tree
 * encodes, and the vector transformations the tree's mutators perform,
 * together with the proofs that they keep the shape and the child lists.
 */
module TreeNodes {
  /** The null link, `std::numeric_limits<std::size_t>::max()` on a 64-bit target. */
  const MAXINT: nat := 0xFFFF_FFFF_FFFF_FFFF

  datatype Node<T> = Node(
    id: nat,
    data: T,
    parent: nat,
    previousSibling: nat,
    nextSibling: nat,
    firstChild: nat,
    lastChild: nat,
    depth: nat)

  /** The node the constructor `Node(id, data, parent, depth)` builds: every link but the parent null. */
  function NewLeaf<T>(id: nat, data: T, parent: nat, depth: nat): Node<T>
  {
    Node(id, data, parent, MAXINT, MAXINT, MAXINT, MAXINT, depth)
  }

  // ---------------------------------------------------------------------
  // Shape: what every reachable state satisfies, even after `erase`.

  /**
   * Node `i` knows its own index; the root (index 0) has no parent and no
   * siblings and depth 0; any other node was created after its parent and
   * is one deeper; every non-null link names a node, siblings share the
   * parent, children name this node as their parent, and a node has a
   * first child exactly when it has a last child.
   */
  ghost predicate NodeShaped<T>(ns: seq<Node<T>>, i: nat)
    requires i < |ns|
  {
    var n := ns[i];
    && n.id == i
    && (i == 0 ==> n.parent == MAXINT && n.depth == 0 && n.previousSibling == MAXINT && n.nextSibling == MAXINT)
    && (i > 0 ==> n.parent < i && n.depth == ns[n.parent].depth + 1)
    && (n.previousSibling != MAXINT ==> n.previousSibling < |ns| && ns[n.previousSibling].parent == n.parent)
    && (n.nextSibling != MAXINT ==> n.nextSibling < |ns| && ns[n.nextSibling].parent == n.parent)
    && (n.firstChild != MAXINT ==> n.firstChild < |ns| && ns[n.firstChild].parent == i)
    && (n.lastChild != MAXINT ==> n.lastChild < |ns| && ns[n.lastChild].parent == i)
    && (n.firstChild == MAXINT <==> n.lastChild == MAXINT)
  }

  ghost predicate Shaped<T>(ns: seq<Node<T>>)
  {
    && |ns| < MAXINT
    && (forall i :: 0 <= i < |ns| ==> NodeShaped(ns, i))
  }

  /** A node's children come after it and are one deeper. */
  lemma ChildOf<T>(ns: seq<Node<T>>, p: nat, c: nat)
    requires Shaped(ns) && p < |ns| && c < |ns| && ns[c].parent == p
    ensures 0 < c && p < c && ns[c].depth == ns[p].depth + 1
  {
    assert NodeShaped(ns, c);
    assert NodeShaped(ns, 0);
  }

  /** Two nodes with one parent are equally deep. */
  lemma SiblingsEquallyDeep<T>(ns: seq<Node<T>>, x: nat, y: nat)
    requires Shaped(ns) && x < |ns| && y < |ns| && ns[x].parent == ns[y].parent != MAXINT
    ensures ns[x].depth == ns[y].depth
  {
    assert NodeShaped(ns, x) && NodeShaped(ns, y);
    assert NodeShaped(ns, 0);
  }

  // ---------------------------------------------------------------------
  // Child lists: what a well-linked tree encodes.

  function FirstOf(k: seq<nat>): nat
  {
    if k == [] then MAXINT else k[0]
  }

  function LastOf(k: seq<nat>): nat
  {
    if k == [] then MAXINT else k[|k| - 1]
  }

  function PrevIn(k: seq<nat>, j: nat): nat
    requires j < |k|
  {
    if j == 0 then MAXINT else k[j - 1]
  }

  function NextIn(k: seq<nat>, j: nat): nat
    requires j < |k|
  {
    if j == |k| - 1 then MAXINT else k[j + 1]
  }

  /**
   * The links of `p` and of its children encode the list `kids[p]`: the
   * first and last child are its ends, each child names `p` as parent and its
   * neighbours in the list as siblings, and no child occurs twice.
   */
  ghost predicate ChildList<T>(ns: seq<Node<T>>, kids: seq<seq<nat>>, p: nat)
    requires p < |ns| && |kids| == |ns|
  {
    var k := kids[p];
    && ns[p].firstChild == FirstOf(k)
    && ns[p].lastChild == LastOf(k)
    && (forall j :: 0 <= j < |k| ==>
          && k[j] < |ns|
          && ns[k[j]].parent == p
          && ns[k[j]].previousSibling == PrevIn(k, j)
          && ns[k[j]].nextSibling == NextIn(k, j))
    && (forall i, j :: 0 <= i < j < |k| ==> k[i] != k[j])
  }

  /** A node is live when it is the root or one of its parent's children. */
  ghost predicate Live<T>(ns: seq<Node<T>>, kids: seq<seq<nat>>, x: nat)
    requires |kids| == |ns|
  {
    && x < |ns|
    && (x == 0 || (ns[x].parent < |ns| && x in kids[ns[x].parent]))
  }

  /** Every node's links encode its child list, and only live nodes have children. */
  ghost predicate Linked<T>(ns: seq<Node<T>>, kids: seq<seq<nat>>)
  {
    && |kids| == |ns|
    && (forall p :: 0 <= p < |ns| ==> ChildList(ns, kids, p))
    && (forall p :: 0 <= p < |ns| && kids[p] != [] ==> Live(ns, kids, p))
  }

  /** The facts `ChildList` states about the child at position `j` of `p`. */
  lemma ChildAt<T>(ns: seq<Node<T>>, kids: seq<seq<nat>>, p: nat, j: nat)
    requires Linked(ns, kids) && p < |ns| && j < |kids[p]|
    ensures kids[p][j] < |ns| && ns[kids[p][j]].parent == p
    ensures ns[kids[p][j]].previousSibling == PrevIn(kids[p], j)
    ensures ns[kids[p][j]].nextSibling == NextIn(kids[p], j)
    ensures forall i :: 0 <= i < |kids[p]| && i != j ==> kids[p][i] != kids[p][j]
  {
    assert ChildList(ns, kids, p);
  }

  /** The first and last child of `p` are the ends of its list. */
  lemma EndsOf<T>(ns: seq<Node<T>>, kids: seq<seq<nat>>, p: nat)
    requires Linked(ns, kids) && p < |ns|
    ensures ns[p].firstChild == FirstOf(kids[p]) && ns[p].lastChild == LastOf(kids[p])
    ensures forall j :: 0 <= j < |kids[p]| ==> kids[p][j] < |ns|
  {
    assert ChildList(ns, kids, p);
  }

  /** A node with another parent is not in `p`'s list. */
  lemma NotKidOf<T>(ns: seq<Node<T>>, kids: seq<seq<nat>>, p: nat, x: nat)
    requires Linked(ns, kids) && p < |ns| && x < |ns| && ns[x].parent != p
    ensures x !in kids[p]
  {
    forall i | 0 <= i < |kids[p]|
      ensures kids[p][i] != x
    {
      ChildAt(ns, kids, p, i);
    }
  }

  /** A node without a first child has an empty child list. */
  lemma LeafHasNoKids<T>(ns: seq<Node<T>>, kids: seq<seq<nat>>, p: nat)
    requires Shaped(ns) && Linked(ns, kids) && p < |ns|
    ensures ns[p].firstChild == MAXINT <==> kids[p] == []
  {
    assert ChildList(ns, kids, p);
    if kids[p] != [] {
      ChildAt(ns, kids, p, 0);
    }
  }

  /** Where a live non-root node sits in its parent's child list. */
  lemma PositionOf<T>(ns: seq<Node<T>>, kids: seq<seq<nat>>, x: nat) returns (j: nat)
    requires Shaped(ns) && Linked(ns, kids) && Live(ns, kids, x) && x != 0
    ensures ns[x].parent < |ns| && j < |kids[ns[x].parent]| && kids[ns[x].parent][j] == x
  {
    var p := ns[x].parent;
    j :| 0 <= j < |kids[p]| && kids[p][j] == x;
  }

  /** A child has no next sibling exactly when it ends the list, and no previous sibling exactly when it starts it. */
  lemma EndsAt<T>(ns: seq<Node<T>>, kids: seq<seq<nat>>, p: nat, j: nat)
    requires Shaped(ns) && Linked(ns, kids) && p < |ns| && j < |kids[p]|
    ensures kids[p][j] < |ns| && ns[kids[p][j]].parent == p
    ensures ns[kids[p][j]].nextSibling == MAXINT <==> j == |kids[p]| - 1
    ensures ns[kids[p][j]].previousSibling == MAXINT <==> j == 0
  {
    ChildAt(ns, kids, p, j);
    if j + 1 < |kids[p]| {
      ChildAt(ns, kids, p, j + 1);
    }
    if j > 0 {
      ChildAt(ns, kids, p, j - 1);
    }
  }

  // ---------------------------------------------------------------------
  // The transformations of the node vector.

  /**
   * `newNode` with the free list empty: a new leaf at the end of the vector,
   * appended as last child of `parent` unless `parent` is null.
   */
  function Attach<T>(ns: seq<Node<T>>, data: T, parent: nat, depth: nat): seq<Node<T>>
    requires parent == MAXINT || (parent < |ns| && (ns[parent].lastChild == MAXINT || ns[parent].lastChild < |ns|))
  {
    var r := |ns|;
    var grown := ns + [NewLeaf(r, data, parent, depth)];
    if parent == MAXINT then grown
    else if ns[parent].lastChild != MAXINT then
      var l := ns[parent].lastChild;
      var a := grown[l := grown[l].(nextSibling := r)];
      var b := a[r := a[r].(previousSibling := l)];
      b[parent := b[parent].(lastChild := r)]
    else
      grown[parent := grown[parent].(firstChild := r, lastChild := r)]
  }

  /** `eraseNode`'s effect on a node: both sibling links null. */
  function Detached<T>(n: Node<T>): Node<T>
  {
    n.(nextSibling := MAXINT, previousSibling := MAXINT)
  }

  /** `eraseChildren(id)` over the children `k`: each detached, and `id` left without children. */
  function Cleared<T>(ns: seq<Node<T>>, id: nat, k: seq<nat>): seq<Node<T>>
    requires id < |ns|
  {
    seq(|ns|, y requires 0 <= y < |ns| =>
      if y == id then ns[y].(firstChild := MAXINT, lastChild := MAXINT)
      else if y in k then Detached(ns[y])
      else ns[y])
  }

  /**
   * `erase`'s splice as written: the neighbours of `id` are linked to each
   * other and `id` is detached, but the parent's first and last child are
   * left as they were.
   */
  function Unlink<T>(ns: seq<Node<T>>, id: nat): seq<Node<T>>
    requires id < |ns|
    requires ns[id].nextSibling == MAXINT || ns[id].nextSibling < |ns|
    requires ns[id].previousSibling == MAXINT || ns[id].previousSibling < |ns|
  {
    var n := ns[id];
    var a := if n.nextSibling != MAXINT then ns[n.nextSibling := ns[n.nextSibling].(previousSibling := n.previousSibling)] else ns;
    var b := if n.previousSibling != MAXINT then a[n.previousSibling := a[n.previousSibling].(nextSibling := n.nextSibling)] else a;
    b[id := Detached(b[id])]
  }

  /**
   * The splice with the parent relinked: a node without a next sibling was
   * its parent's last child, and one without a previous sibling its first.
   */
  function UnlinkCorrected<T>(ns: seq<Node<T>>, id: nat): seq<Node<T>>
    requires id < |ns| && ns[id].parent < |ns|
    requires ns[id].nextSibling == MAXINT || ns[id].nextSibling < |ns|
    requires ns[id].previousSibling == MAXINT || ns[id].previousSibling < |ns|
  {
    var n := ns[id];
    var p := n.parent;
    var a := if n.nextSibling != MAXINT then ns[n.nextSibling := ns[n.nextSibling].(previousSibling := n.previousSibling)]
             else ns[p := ns[p].(lastChild := n.previousSibling)];
    var b := if n.previousSibling != MAXINT then a[n.previousSibling := a[n.previousSibling].(nextSibling := n.nextSibling)]
             else a[p := a[p].(firstChild := n.nextSibling)];
    b[id := Detached(b[id])]
  }

  // ---------------------------------------------------------------------
  // The transformations keep the shape and the child lists.

  /** Indices, parents and depths of the old nodes are untouched; the vector may have grown. */
  ghost predicate SameSkeleton<T>(ns: seq<Node<T>>, ns2: seq<Node<T>>)
  {
    && |ns| <= |ns2|
    && forall y :: 0 <= y < |ns| ==> ns2[y].id == ns[y].id && ns2[y].parent == ns[y].parent && ns2[y].depth == ns[y].depth
  }

  /** A node whose links are unchanged keeps its shape when the skeleton is unchanged. */
  lemma NodeShapedFrame<T>(ns: seq<Node<T>>, ns2: seq<Node<T>>, i: nat)
    requires i < |ns| && NodeShaped(ns, i) && SameSkeleton(ns, ns2)
    requires ns2[i].previousSibling == ns[i].previousSibling && ns2[i].nextSibling == ns[i].nextSibling
    requires ns2[i].firstChild == ns[i].firstChild && ns2[i].lastChild == ns[i].lastChild
    ensures NodeShaped(ns2, i)
  {
  }

  /**
   * `ns2` is `ns` after `newNode(data, p, depth)`: one new leaf under `p`
   * whose previous sibling is `p`'s old last child, which now points to the
   * new leaf; `p` has the new leaf as last child (and as first, when it had
   * none); nothing else changes.
   */
  ghost predicate Appended<T>(ns: seq<Node<T>>, ns2: seq<Node<T>>, data: T, p: nat, depth: nat)
    requires p < |ns|
  {
    var l := ns[p].lastChild;
    && |ns2| == |ns| + 1
    && ns2[|ns|] == NewLeaf(|ns|, data, p, depth).(previousSibling := l)
    && ns2[p] == ns[p].(lastChild := |ns|, firstChild := if l == MAXINT then |ns| else ns[p].firstChild)
    && (l != MAXINT ==> l < |ns| && l != p && ns[l].parent == p && ns2[l] == ns[l].(nextSibling := |ns|))
    && (forall y :: 0 <= y < |ns| && y != p && y != l ==> ns2[y] == ns[y])
  }

  /** `Attach` appends as `Appended` describes. */
  lemma AttachAppends<T>(ns: seq<Node<T>>, data: T, p: nat, depth: nat)
    requires Shaped(ns) && p < |ns|
    ensures NodeShaped(ns, p)
    ensures Appended(ns, Attach(ns, data, p, depth), data, p, depth)
  {
    assert NodeShaped(ns, p);
    var l := ns[p].lastChild;
    if l != MAXINT {
      ChildOf(ns, p, l);
    }
  }

  /** Appending under a parent keeps the shape. */
  lemma AppendedShaped<T>(ns: seq<Node<T>>, ns2: seq<Node<T>>, data: T, p: nat, depth: nat)
    requires Shaped(ns) && |ns| + 1 < MAXINT && p < |ns| && depth == ns[p].depth + 1
    requires Appended(ns, ns2, data, p, depth)
    ensures Shaped(ns2)
  {
    var l := ns[p].lastChild;
    assert SameSkeleton(ns, ns2);
    forall i | 0 <= i < |ns2|
      ensures NodeShaped(ns2, i)
    {
      if i < |ns| {
        assert NodeShaped(ns, i);
        if i != p && i != l {
          NodeShapedFrame(ns, ns2, i);
        }
      }
    }
  }

  /**
   * Appending under a live parent keeps the tree well linked: the new node
   * becomes the last entry of the parent's child list, with no children of
   * its own, and every other child list is unchanged.
   */
  lemma AppendedLinked<T>(ns: seq<Node<T>>, ns2: seq<Node<T>>, kids: seq<seq<nat>>, data: T, p: nat, depth: nat)
    requires Shaped(ns) && Linked(ns, kids) && Live(ns, kids, p) && |ns| + 1 < MAXINT
    requires Appended(ns, ns2, data, p, depth)
    ensures Linked(ns2, kids[p := kids[p] + [|ns|]] + [[]])
  {
    var kids2 := kids[p := kids[p] + [|ns|]] + [[]];
    var r, l := |ns|, ns[p].lastChild;
    forall q | 0 <= q < |ns2|
      ensures ChildList(ns2, kids2, q)
    {
      if q == r {
      } else if q == p {
        AppendedParentList(ns, ns2, kids, data, p, depth);
      } else {
        assert ChildList(ns, kids, q);
        var k := kids[q];
        assert kids2[q] == k;
        forall j | 0 <= j < |k|
          ensures ns2[k[j]].parent == ns[k[j]].parent
          ensures ns2[k[j]].previousSibling == ns[k[j]].previousSibling
          ensures ns2[k[j]].nextSibling == ns[k[j]].nextSibling
        {
          ChildAt(ns, kids, q, j);
        }
      }
    }
    forall q | 0 <= q < |ns2| && kids2[q] != []
      ensures Live(ns2, kids2, q)
    {
      assert q < |ns|;
      if q != p {
        assert kids[q] == kids2[q];
      }
      assert Live(ns, kids, q);
      if q != 0 {
        var pq := ns[q].parent;
        assert ns2[q].parent == pq;
        assert q in kids[pq];
        assert pq != p ==> kids2[pq] == kids[pq];
        assert pq == p ==> kids2[pq] == kids[pq] + [r];
      }
    }
  }

  /** The parent's child list after appending: the old list with the new node at its end. */
  lemma AppendedParentList<T>(ns: seq<Node<T>>, ns2: seq<Node<T>>, kids: seq<seq<nat>>, data: T, p: nat, depth: nat)
    requires Shaped(ns) && Linked(ns, kids) && p < |ns| && |ns| + 1 < MAXINT
    requires Appended(ns, ns2, data, p, depth)
    ensures ChildList(ns2, kids[p := kids[p] + [|ns|]] + [[]], p)
  {
    var kids2 := kids[p := kids[p] + [|ns|]] + [[]];
    var k2 := kids[p] + [|ns|];
    assert kids2[p] == k2;
    assert ChildList(ns, kids, p);
    forall j | 0 <= j < |k2|
      ensures k2[j] < |ns2| && ns2[k2[j]].parent == p
      ensures ns2[k2[j]].previousSibling == PrevIn(k2, j) && ns2[k2[j]].nextSibling == NextIn(k2, j)
    {
      AppendedChildAt(ns, ns2, kids, data, p, depth, j);
    }
    forall i, j | 0 <= i < j < |k2|
      ensures k2[i] != k2[j]
    {
      ChildAt(ns, kids, p, i);
    }
  }

  /** The entry at position `j` of the parent's list after appending. */
  lemma AppendedChildAt<T>(ns: seq<Node<T>>, ns2: seq<Node<T>>, kids: seq<seq<nat>>, data: T, p: nat, depth: nat, j: nat)
    requires Shaped(ns) && Linked(ns, kids) && p < |ns| && j <= |kids[p]|
    requires Appended(ns, ns2, data, p, depth)
    ensures var k2 := kids[p] + [|ns|];
            && k2[j] < |ns2| && ns2[k2[j]].parent == p
            && ns2[k2[j]].previousSibling == PrevIn(k2, j) && ns2[k2[j]].nextSibling == NextIn(k2, j)
  {
    var k := kids[p];
    var l := ns[p].lastChild;
    EndsOf(ns, kids, p);
    if j < |k| - 1 {
      ChildAt(ns, kids, p, j);
      ChildAt(ns, kids, p, |k| - 1);
      assert k[j] != l;
    } else if j == |k| - 1 {
      ChildAt(ns, kids, p, j);
      assert k[j] == l;
    }
  }

  /** The vector part way through `eraseChildren`: the first `i` children of `k` detached. */
  function Detaching<T>(ns: seq<Node<T>>, k: seq<nat>, i: nat): (r: seq<Node<T>>)
    requires i <= |k|
    ensures |r| == |ns|
  {
    seq(|ns|, y requires 0 <= y < |ns| => if y in k[..i] then Detached(ns[y]) else ns[y])
  }

  /**
   * One turn of `eraseChildren`'s loop: the next child is still attached,
   * its next sibling is the following entry, and detaching it extends the
   * detached prefix by one.
   */
  lemma DetachingStep<T>(ns: seq<Node<T>>, kids: seq<seq<nat>>, id: nat, i: nat)
    requires Linked(ns, kids) && id < |ns| && i < |kids[id]|
    ensures var k := kids[id];
            && k[i] < |ns|
            && Detaching(ns, k, i)[k[i]] == ns[k[i]]
            && ns[k[i]].nextSibling == NextIn(k, i)
            && Detaching(ns, k, i)[k[i] := Detached(ns[k[i]])] == Detaching(ns, k, i + 1)
  {
    var k := kids[id];
    ChildAt(ns, kids, id, i);
    assert k[i] !in k[..i];
    assert k[..i + 1] == k[..i] + [k[i]];
  }

  /** With every child detached and `id`'s ends nulled, the loop has computed `Cleared`. */
  lemma DetachingDone<T>(ns: seq<Node<T>>, id: nat, k: seq<nat>)
    requires id < |ns| && id !in k
    ensures var d := Detaching(ns, k, |k|);
            d[id := d[id].(firstChild := MAXINT, lastChild := MAXINT)] == Cleared(ns, id, k)
  {
    assert k[..|k|] == k;
  }

  /** Clearing children only nulls links, so it keeps the shape. */
  lemma ClearedShaped<T>(ns: seq<Node<T>>, id: nat, k: seq<nat>)
    requires Shaped(ns) && id < |ns|
    ensures Shaped(Cleared(ns, id, k))
  {
    var ns2 := Cleared(ns, id, k);
    assert SameSkeleton(ns, ns2);
    forall i | 0 <= i < |ns2|
      ensures NodeShaped(ns2, i)
    {
      assert NodeShaped(ns, i);
    }
  }

  /**
   * `eraseChildren(id)` on a well-linked tree whose children of `id` are all
   * leaves keeps it well linked: `id`'s child list becomes empty and every
   * other list is unchanged.
   */
  lemma ClearedLinked<T>(ns: seq<Node<T>>, kids: seq<seq<nat>>, id: nat)
    requires Shaped(ns) && Linked(ns, kids) && id < |ns|
    requires forall j :: 0 <= j < |kids[id]| && kids[id][j] < |ns| ==> ns[kids[id][j]].firstChild == MAXINT
    ensures Linked(Cleared(ns, id, kids[id]), kids[id := []])
  {
    var k := kids[id];
    var ns2 := Cleared(ns, id, k);
    var kids2 := kids[id := []];
    assert ChildList(ns, kids, id);
    forall q | 0 <= q < |ns2|
      ensures ChildList(ns2, kids2, q)
    {
      if q == id {
      } else if q in k {
        var j :| 0 <= j < |k| && k[j] == q;
        LeafHasNoKids(ns, kids, q);
        assert ChildList(ns, kids, q);
      } else {
        assert ChildList(ns, kids, q);
        var kq := kids[q];
        forall j | 0 <= j < |kq|
          ensures kq[j] !in k
        {
          ChildAt(ns, kids, q, j);
          NotKidOf(ns, kids, id, kq[j]);
        }
      }
    }
    forall q | 0 <= q < |ns2| && kids2[q] != []
      ensures Live(ns2, kids2, q)
    {
      assert q != id && kids[q] == kids2[q];
      assert Live(ns, kids, q);
      if q != 0 {
        var pq := ns[q].parent;
        if pq == id {
          var i :| 0 <= i < |k| && k[i] == q;
          ChildAt(ns, kids, id, i);
          LeafHasNoKids(ns, kids, q);
        }
        assert kids2[pq] == kids[pq];
      }
    }
  }

  /**
   * `ns2` is `ns` with `id` spliced out of its parent's list: the previous
   * and next sibling now point at each other, `id` is detached, and, when
   * `relink` holds, the parent's first or last child moves past `id`.
   * Nothing else changes.
   */
  ghost predicate Spliced<T>(ns: seq<Node<T>>, ns2: seq<Node<T>>, id: nat, relink: bool)
    requires id < |ns| && ns[id].parent < |ns|
  {
    var n := ns[id];
    var p, nx, pv := n.parent, n.nextSibling, n.previousSibling;
    && |ns2| == |ns|
    && ns2[id] == Detached(ns[id])
    && (nx != MAXINT ==> nx < |ns| && ns2[nx] == ns[nx].(previousSibling := pv))
    && (pv != MAXINT ==> pv < |ns| && ns2[pv] == ns[pv].(nextSibling := nx))
    && ns2[p] == (if relink then ns[p].(lastChild := if nx == MAXINT then pv else ns[p].lastChild,
                                        firstChild := if pv == MAXINT then nx else ns[p].firstChild)
                  else ns[p])
    && (forall y :: 0 <= y < |ns| && y != id && y != nx && y != pv && y != p ==> ns2[y] == ns[y])
  }

  /** The neighbours of a live non-root node: its position in the parent's list fixes them, and they are distinct. */
  lemma Neighbours<T>(ns: seq<Node<T>>, kids: seq<seq<nat>>, id: nat, j: nat)
    requires Shaped(ns) && Linked(ns, kids) && id != 0 && id < |ns| && ns[id].parent < |ns|
    requires j < |kids[ns[id].parent]| && kids[ns[id].parent][j] == id
    ensures var n, k := ns[id], kids[ns[id].parent];
            && n.previousSibling == PrevIn(k, j) && n.nextSibling == NextIn(k, j)
            && n.parent != id && n.parent != n.nextSibling && n.parent != n.previousSibling
            && n.nextSibling != id && n.previousSibling != id
            && (n.nextSibling != MAXINT ==> n.nextSibling < |ns| && n.nextSibling != n.previousSibling)
            && (n.previousSibling != MAXINT ==> n.previousSibling < |ns|)
  {
    var p := ns[id].parent;
    var k := kids[p];
    ChildAt(ns, kids, p, j);
    ChildOf(ns, p, id);
    if j + 1 < |k| {
      ChildAt(ns, kids, p, j + 1);
      ChildOf(ns, p, k[j + 1]);
    }
    if j > 0 {
      ChildAt(ns, kids, p, j - 1);
      ChildOf(ns, p, k[j - 1]);
    }
  }

  /** Both splices of a live non-root node are described by `Spliced`. */
  lemma UnlinkSplices<T>(ns: seq<Node<T>>, kids: seq<seq<nat>>, id: nat)
    requires Shaped(ns) && Linked(ns, kids) && Live(ns, kids, id) && id != 0
    ensures NodeShaped(ns, id) && ns[id].parent < |ns|
    ensures Spliced(ns, Unlink(ns, id), id, false)
    ensures Spliced(ns, UnlinkCorrected(ns, id), id, true)
  {
    assert NodeShaped(ns, id);
    var j := PositionOf(ns, kids, id);
    Neighbours(ns, kids, id, j);
  }

  /** Splicing out a live non-root node keeps the shape, whether or not the parent is relinked. */
  lemma SplicedShaped<T>(ns: seq<Node<T>>, ns2: seq<Node<T>>, kids: seq<seq<nat>>, id: nat, relink: bool)
    requires Shaped(ns) && Linked(ns, kids) && Live(ns, kids, id) && id != 0
    requires ns[id].parent < |ns| && Spliced(ns, ns2, id, relink)
    ensures Shaped(ns2)
  {
    var j := PositionOf(ns, kids, id);
    Neighbours(ns, kids, id, j);
    var n := ns[id];
    assert NodeShaped(ns, id);
    EndsOf(ns, kids, n.parent);
    ChildAt(ns, kids, n.parent, 0);
    assert SameSkeleton(ns, ns2);
    forall i | 0 <= i < |ns2|
      ensures NodeShaped(ns2, i)
    {
      assert NodeShaped(ns, i);
      if i != id && i != n.nextSibling && i != n.previousSibling && i != n.parent {
        NodeShapedFrame(ns, ns2, i);
      } else {
        SplicedNodeShaped(ns, ns2, id, relink, i);
      }
    }
  }

  /** One of the nodes a splice changes keeps its shape. */
  lemma SplicedNodeShaped<T>(ns: seq<Node<T>>, ns2: seq<Node<T>>, id: nat, relink: bool, i: nat)
    requires Shaped(ns) && id != 0 && id < |ns| && ns[id].parent < |ns| && i < |ns|
    requires var n := ns[id];
             && n.parent != id && n.parent != n.nextSibling && n.parent != n.previousSibling
             && n.nextSibling != id && n.previousSibling != id
             && (n.nextSibling != MAXINT ==> n.nextSibling != n.previousSibling)
             && ns[n.parent].firstChild != MAXINT
    requires Spliced(ns, ns2, id, relink) && SameSkeleton(ns, ns2)
    ensures NodeShaped(ns2, i)
  {
    assert NodeShaped(ns, i);
    assert NodeShaped(ns, id);
  }

  /** The list `k` without its entry at position `j`. */
  function Without(k: seq<nat>, j: nat): (r: seq<nat>)
    requires j < |k|
    ensures |r| == |k| - 1
    ensures forall i :: 0 <= i < |r| ==> r[i] == (if i < j then k[i] else k[i + 1])
  {
    k[..j] + k[j + 1..]
  }

  /**
   * Splicing a childless live node out with the parent relinked keeps the
   * tree well linked: the node leaves its parent's list and every other list
   * is unchanged.
   */
  lemma SplicedLinked<T>(ns: seq<Node<T>>, ns2: seq<Node<T>>, kids: seq<seq<nat>>, id: nat, j: nat)
    requires Shaped(ns) && Linked(ns, kids) && id != 0 && id < |ns| && ns[id].parent < |ns|
    requires j < |kids[ns[id].parent]| && kids[ns[id].parent][j] == id && kids[id] == []
    requires Spliced(ns, ns2, id, true)
    ensures Linked(ns2, kids[ns[id].parent := Without(kids[ns[id].parent], j)])
  {
    var n := ns[id];
    var p := n.parent;
    var k := kids[p];
    var kids2 := kids[p := Without(k, j)];
    Neighbours(ns, kids, id, j);
    forall q | 0 <= q < |ns2|
      ensures ChildList(ns2, kids2, q)
    {
      if q == p {
        SplicedParentList(ns, ns2, kids, id, j);
      } else {
        SplicedOtherList(ns, ns2, kids, id, j, q);
      }
    }
    forall q | 0 <= q < |ns2| && kids2[q] != []
      ensures Live(ns2, kids2, q)
    {
      SplicedLive(ns, ns2, kids, id, j, q);
    }
  }

  /** A list other than the parent's is untouched by the splice. */
  lemma SplicedOtherList<T>(ns: seq<Node<T>>, ns2: seq<Node<T>>, kids: seq<seq<nat>>, id: nat, j: nat, q: nat)
    requires Shaped(ns) && Linked(ns, kids) && id != 0 && id < |ns| && ns[id].parent < |ns|
    requires j < |kids[ns[id].parent]| && kids[ns[id].parent][j] == id && kids[id] == []
    requires Spliced(ns, ns2, id, true)
    requires q < |ns| && q != ns[id].parent
    ensures ChildList(ns2, kids[ns[id].parent := Without(kids[ns[id].parent], j)], q)
  {
    var n := ns[id];
    var p := n.parent;
    Neighbours(ns, kids, id, j);
    assert NodeShaped(ns, id);
    var kids2 := kids[p := Without(kids[p], j)];
    assert kids2[q] == kids[q];
    assert ChildList(ns, kids, q);
    assert ns2[q].firstChild == ns[q].firstChild && ns2[q].lastChild == ns[q].lastChild;
    var kq := kids[q];
    forall i | 0 <= i < |kq|
      ensures ns2[kq[i]].parent == ns[kq[i]].parent
      ensures ns2[kq[i]].previousSibling == ns[kq[i]].previousSibling
      ensures ns2[kq[i]].nextSibling == ns[kq[i]].nextSibling
    {
      ChildAt(ns, kids, q, i);
      var x := kq[i];
      assert x != id && x != n.nextSibling && x != n.previousSibling;
    }
  }

  /** After the splice every node that still has children is live. */
  lemma SplicedLive<T>(ns: seq<Node<T>>, ns2: seq<Node<T>>, kids: seq<seq<nat>>, id: nat, j: nat, q: nat)
    requires Shaped(ns) && Linked(ns, kids) && id != 0 && id < |ns| && ns[id].parent < |ns|
    requires j < |kids[ns[id].parent]| && kids[ns[id].parent][j] == id && kids[id] == []
    requires Spliced(ns, ns2, id, true)
    requires q < |ns| && kids[ns[id].parent := Without(kids[ns[id].parent], j)][q] != []
    ensures Live(ns2, kids[ns[id].parent := Without(kids[ns[id].parent], j)], q)
  {
    var p := ns[id].parent;
    var k := kids[p];
    var kids2 := kids[p := Without(k, j)];
    Neighbours(ns, kids, id, j);
    assert q != id;
    assert kids[q] != [] by {
      if q == p {
        assert |kids2[q]| == |k| - 1;
      }
    }
    assert Live(ns, kids, q);
    if q != 0 {
      var pq := ns[q].parent;
      assert ns2[q].parent == pq;
      if pq == p {
        var i :| 0 <= i < |k| && k[i] == q;
        assert i != j;
        assert Without(k, j)[if i < j then i else i - 1] == q;
      }
    }
  }

  /** The parent's list after the splice: the old list without `id`. */
  lemma SplicedParentList<T>(ns: seq<Node<T>>, ns2: seq<Node<T>>, kids: seq<seq<nat>>, id: nat, j: nat)
    requires Shaped(ns) && Linked(ns, kids) && id != 0 && id < |ns| && ns[id].parent < |ns|
    requires j < |kids[ns[id].parent]| && kids[ns[id].parent][j] == id
    requires Spliced(ns, ns2, id, true)
    ensures ChildList(ns2, kids[ns[id].parent := Without(kids[ns[id].parent], j)], ns[id].parent)
  {
    var p := ns[id].parent;
    var k := kids[p];
    var k2 := Without(k, j);
    Neighbours(ns, kids, id, j);
    EndsOf(ns, kids, p);
    forall i | 0 <= i < |k2|
      ensures k2[i] < |ns2| && ns2[k2[i]].parent == p
      ensures ns2[k2[i]].previousSibling == PrevIn(k2, i) && ns2[k2[i]].nextSibling == NextIn(k2, i)
    {
      SplicedChildAt(ns, ns2, kids, id, j, i);
    }
    forall a, b | 0 <= a < b < |k2|
      ensures k2[a] != k2[b]
    {
      ChildAt(ns, kids, p, if a < j then a else a + 1);
    }
  }

  /** The entry at position `i` of the parent's list after the splice. */
  lemma SplicedChildAt<T>(ns: seq<Node<T>>, ns2: seq<Node<T>>, kids: seq<seq<nat>>, id: nat, j: nat, i: nat)
    requires Shaped(ns) && Linked(ns, kids) && id != 0 && id < |ns| && ns[id].parent < |ns|
    requires j < |kids[ns[id].parent]| && kids[ns[id].parent][j] == id
    requires Spliced(ns, ns2, id, true)
    requires i < |kids[ns[id].parent]| - 1
    ensures var k2 := Without(kids[ns[id].parent], j);
            && k2[i] < |ns2| && ns2[k2[i]].parent == ns[id].parent
            && ns2[k2[i]].previousSibling == PrevIn(k2, i) && ns2[k2[i]].nextSibling == NextIn(k2, i)
  {
    var p := ns[id].parent;
    var k := kids[p];
    Neighbours(ns, kids, id, j);
    var src := if i < j then i else i + 1;
    ChildAt(ns, kids, p, src);
    if src + 1 < |k| {
      ChildAt(ns, kids, p, src + 1);
    }
    if src > 0 {
      ChildAt(ns, kids, p, src - 1);
    }
  }

  /** Replacing the data of a node changes no link: shape and child lists survive. */
  lemma Relabelled<T>(ns: seq<Node<T>>, kids: seq<seq<nat>>, i: nat, d: T)
    requires i < |ns|
    ensures Shaped(ns) ==> Shaped(ns[i := ns[i].(data := d)])
    ensures Linked(ns, kids) ==> Linked(ns[i := ns[i].(data := d)], kids)
  {
    var ns2 := ns[i := ns[i].(data := d)];
    if Shaped(ns) {
      forall y | 0 <= y < |ns|
        ensures NodeShaped(ns2, y)
      {
        NodeShapedFrame(ns, ns2, y);
      }
    }
    if Linked(ns, kids) {
      forall p | 0 <= p < |ns|
        ensures ChildList(ns2, kids, p)
      {
        assert ChildList(ns, kids, p);
      }
      forall p | 0 <= p < |ns| && kids[p] != []
        ensures Live(ns2, kids, p)
      {
        assert Live(ns, kids, p);
      }
    }
  }

  // ---------------------------------------------------------------------
  // Walking a child list.

  /** The nodes met from `x` by following next-sibling links, at most `n` of them, stopping at the null link. */
  function SiblingWalk<T>(ns: seq<Node<T>>, x: nat, n: nat): seq<nat>
    decreases n
  {
    if n == 0 || x >= |ns| then [] else [x] + SiblingWalk(ns, ns[x].nextSibling, n - 1)
  }

  /**
   * Iterating the children of `p` in a well-linked tree, from its first
   * child along next-sibling links, meets exactly its child list, in order,
   * and the step after the last child reaches the null link.
   */
  lemma ChildrenWalk<T>(ns: seq<Node<T>>, kids: seq<seq<nat>>, p: nat)
    requires Shaped(ns) && Linked(ns, kids) && p < |ns|
    ensures SiblingWalk(ns, ns[p].firstChild, |kids[p]|) == kids[p]
    ensures kids[p] != [] ==> LastOf(kids[p]) < |ns| && ns[LastOf(kids[p])].nextSibling == MAXINT
  {
    EndsOf(ns, kids, p);
    WalkFrom(ns, kids, p, 0);
    assert kids[p][0..] == kids[p];
    if kids[p] != [] {
      ChildAt(ns, kids, p, |kids[p]| - 1);
    }
  }

  lemma {:induction false} WalkFrom<T>(ns: seq<Node<T>>, kids: seq<seq<nat>>, p: nat, j: nat)
    requires Shaped(ns) && Linked(ns, kids) && p < |ns| && j <= |kids[p]|
    ensures SiblingWalk(ns, if j < |kids[p]| then kids[p][j] else MAXINT, |kids[p]| - j) == kids[p][j..]
    decreases |kids[p]| - j
  {
    var k := kids[p];
    if j < |k| {
      ChildAt(ns, kids, p, j);
      WalkFrom(ns, kids, p, j + 1);
      assert k[j..] == [k[j]] + k[j + 1..];
    }
  }
}
