/**
 * The stepping of the dense tree's iterators.  An iterator is its current
 * node index over the tree's node vector, `MAXINT` being the end; `next` and
 * `previous` only read the vector.  Each step the source writes with a loop
 * is a method here, proved equal to a specification function; the functions
 * are then shown to walk the tree as intended: pre-order and post-order
 * `previous` undo `next`, children iteration follows the child list, and
 * path iteration reaches the end after exactly depth + 1 steps.
 */
module TreeIterators {
  import opened TreeNodes

  // ---------------------------------------------------------------------
  // Specification functions.

  /** The node reached from `x` by first-child links until a leaf. */
  function Leftmost<T>(ns: seq<Node<T>>, x: nat): (r: nat)
    requires Shaped(ns) && x < |ns|
    ensures r < |ns| && ns[r].firstChild == MAXINT
    decreases |ns| - x
  {
    assert NodeShaped(ns, x);
    if ns[x].firstChild == MAXINT then x
    else
      ChildOf(ns, x, ns[x].firstChild);
      Leftmost(ns, ns[x].firstChild)
  }

  /** The node reached from `x` by last-child links until a leaf. */
  function Rightmost<T>(ns: seq<Node<T>>, x: nat): (r: nat)
    requires Shaped(ns) && x < |ns|
    ensures r < |ns| && ns[r].firstChild == MAXINT
    decreases |ns| - x
  {
    assert NodeShaped(ns, x);
    if ns[x].firstChild == MAXINT then x
    else
      ChildOf(ns, x, ns[x].lastChild);
      Rightmost(ns, ns[x].lastChild)
  }

  /** The nearest ancestor-or-self of `x` that has a next sibling, or the null link. */
  function ClimbNext<T>(ns: seq<Node<T>>, x: nat): (r: nat)
    requires Shaped(ns) && x < |ns|
    ensures r == MAXINT || (r < |ns| && ns[r].nextSibling != MAXINT)
    decreases x
  {
    assert NodeShaped(ns, x);
    if ns[x].nextSibling != MAXINT then x
    else if ns[x].parent == MAXINT then MAXINT
    else ClimbNext(ns, ns[x].parent)
  }

  /** The nearest ancestor-or-self of `x` that has a previous sibling, or the null link. */
  function ClimbPrev<T>(ns: seq<Node<T>>, x: nat): (r: nat)
    requires Shaped(ns) && x < |ns|
    ensures r == MAXINT || (r < |ns| && ns[r].previousSibling != MAXINT)
    decreases x
  {
    assert NodeShaped(ns, x);
    if ns[x].previousSibling != MAXINT then x
    else if ns[x].parent == MAXINT then MAXINT
    else ClimbPrev(ns, ns[x].parent)
  }

  /** A node index or the end. */
  predicate Position<T>(ns: seq<Node<T>>, x: nat)
  {
    x == MAXINT || x < |ns|
  }

  /** Pre-order successor: the first child, else the next sibling of the nearest ancestor-or-self that has one. */
  function PreorderNextOf<T>(ns: seq<Node<T>>, x: nat): (r: nat)
    requires Shaped(ns) && Position(ns, x)
    ensures |ns| > 0 ==> Position(ns, r)
  {
    if x == MAXINT then 0
    else
      assert NodeShaped(ns, x);
      if ns[x].firstChild != MAXINT then ns[x].firstChild
      else
        var a := ClimbNext(ns, x);
        if a == MAXINT then MAXINT
        else
          assert NodeShaped(ns, a);
          ns[a].nextSibling
  }

  /** Pre-order predecessor: the parent of a first child, else the rightmost leaf under the previous sibling. */
  function PreorderPreviousOf<T>(ns: seq<Node<T>>, x: nat): (r: nat)
    requires Shaped(ns) && Position(ns, x) && (x == MAXINT ==> |ns| > 0)
    ensures Position(ns, r)
  {
    if x == MAXINT then Rightmost(ns, 0)
    else
      assert NodeShaped(ns, x);
      if ns[x].previousSibling == MAXINT then ns[x].parent
      else Rightmost(ns, ns[x].previousSibling)
  }

  /** Post-order successor: the parent of a last child, else the leftmost leaf under the next sibling. */
  function PostorderNextOf<T>(ns: seq<Node<T>>, x: nat): (r: nat)
    requires Shaped(ns) && Position(ns, x) && (x == MAXINT ==> |ns| > 0)
    ensures Position(ns, r)
  {
    if x == MAXINT then Leftmost(ns, 0)
    else
      assert NodeShaped(ns, x);
      if ns[x].nextSibling == MAXINT then ns[x].parent
      else Leftmost(ns, ns[x].nextSibling)
  }

  /** Post-order predecessor: the last child, else the previous sibling of the nearest ancestor-or-self that has one. */
  function PostorderPreviousOf<T>(ns: seq<Node<T>>, x: nat): (r: nat)
    requires Shaped(ns) && Position(ns, x)
    ensures |ns| > 0 ==> Position(ns, r)
  {
    if x == MAXINT then 0
    else
      assert NodeShaped(ns, x);
      if ns[x].firstChild != MAXINT then ns[x].lastChild
      else
        var a := ClimbPrev(ns, x);
        if a == MAXINT then MAXINT
        else
          assert NodeShaped(ns, a);
          ns[a].previousSibling
  }

  // ---------------------------------------------------------------------
  // The iterator steps.

  /** The loop of `begin_postorder` and of post-order `next`: down first-child links to a leaf. */
  method DescendFirst<T>(ns: seq<Node<T>>, x: nat) returns (cur: nat)
    requires Shaped(ns) && x < |ns|
    ensures cur == Leftmost(ns, x)
  {
    cur := x;
    while ns[cur].firstChild != MAXINT
      invariant cur < |ns| && Leftmost(ns, cur) == Leftmost(ns, x)
      decreases |ns| - cur
    {
      assert NodeShaped(ns, cur);
      ChildOf(ns, cur, ns[cur].firstChild);
      cur := ns[cur].firstChild;
    }
  }

  /** The loop of `rbegin_preorder`: down last-child links while there is one. */
  method DescendLast<T>(ns: seq<Node<T>>, x: nat) returns (cur: nat)
    requires Shaped(ns) && x < |ns|
    ensures cur == Rightmost(ns, x)
  {
    cur := x;
    while ns[cur].lastChild != MAXINT
      invariant cur < |ns| && Rightmost(ns, cur) == Rightmost(ns, x)
      decreases |ns| - cur
    {
      assert NodeShaped(ns, cur);
      ChildOf(ns, cur, ns[cur].lastChild);
      cur := ns[cur].lastChild;
    }
    assert NodeShaped(ns, cur);
  }

  /** `PreorderIterator::next`. */
  method PreorderNext<T>(ns: seq<Node<T>>, current: nat) returns (next: nat)
    requires Shaped(ns) && Position(ns, current)
    ensures next == PreorderNextOf(ns, current)
  {
    if current == MAXINT {
      next := 0;
    } else if ns[current].firstChild == MAXINT {
      var cur: nat := current;
      while ns[cur].nextSibling == MAXINT
        invariant cur < |ns| && ClimbNext(ns, cur) == ClimbNext(ns, current)
        decreases cur
      {
        assert NodeShaped(ns, cur);
        cur := ns[cur].parent;
        if cur == MAXINT {
          next := MAXINT;
          return;
        }
      }
      next := ns[cur].nextSibling;
    } else {
      next := ns[current].firstChild;
    }
  }

  /** `PreorderIterator::previous`. */
  method PreorderPrevious<T>(ns: seq<Node<T>>, current: nat) returns (next: nat)
    requires Shaped(ns) && Position(ns, current) && (current == MAXINT ==> |ns| > 0)
    ensures next == PreorderPreviousOf(ns, current)
  {
    if current == MAXINT {
      next := DescendLast(ns, 0);
    } else if ns[current].previousSibling == MAXINT {
      next := ns[current].parent;
    } else {
      assert NodeShaped(ns, current);
      var cur: nat := ns[current].previousSibling;
      while ns[cur].firstChild != MAXINT
        invariant cur < |ns| && Rightmost(ns, cur) == Rightmost(ns, ns[current].previousSibling)
        decreases |ns| - cur
      {
        assert NodeShaped(ns, cur);
        ChildOf(ns, cur, ns[cur].lastChild);
        cur := ns[cur].lastChild;
      }
      next := cur;
    }
  }

  /** `PostorderIterator::next`. */
  method PostorderNext<T>(ns: seq<Node<T>>, current: nat) returns (next: nat)
    requires Shaped(ns) && Position(ns, current) && (current == MAXINT ==> |ns| > 0)
    ensures next == PostorderNextOf(ns, current)
  {
    if current == MAXINT {
      next := DescendFirst(ns, 0);
    } else if ns[current].nextSibling == MAXINT {
      next := ns[current].parent;
    } else {
      assert NodeShaped(ns, current);
      next := DescendFirst(ns, ns[current].nextSibling);
    }
  }

  /** `PostorderIterator::previous`. */
  method PostorderPrevious<T>(ns: seq<Node<T>>, current: nat) returns (next: nat)
    requires Shaped(ns) && Position(ns, current)
    ensures next == PostorderPreviousOf(ns, current)
  {
    if current == MAXINT {
      next := 0;
    } else if ns[current].firstChild == MAXINT {
      if ns[current].previousSibling != MAXINT {
        next := ns[current].previousSibling;
      } else {
        var cur: nat := current;
        while ns[cur].previousSibling == MAXINT
          invariant cur < |ns| && ClimbPrev(ns, cur) == ClimbPrev(ns, current)
          decreases cur
        {
          assert NodeShaped(ns, cur);
          cur := ns[cur].parent;
          if cur == MAXINT {
            next := MAXINT;
            return;
          }
        }
        next := ns[cur].previousSibling;
      }
    } else {
      next := ns[current].lastChild;
    }
  }

  /** `ChildrenIterator::next` over the children of `parent`: from the end to the first child, else the next sibling. */
  function ChildrenNext<T>(ns: seq<Node<T>>, parent: nat, current: nat): nat
    requires parent < |ns| && Position(ns, current)
  {
    if current == MAXINT then (if ns[parent].firstChild == MAXINT then MAXINT else ns[parent].firstChild)
    else ns[current].nextSibling
  }

  /** `ChildrenIterator::previous`: from the end to the last child, else the previous sibling. */
  function ChildrenPrevious<T>(ns: seq<Node<T>>, parent: nat, current: nat): nat
    requires parent < |ns| && Position(ns, current)
  {
    if current == MAXINT then (if ns[parent].firstChild == MAXINT then MAXINT else ns[parent].lastChild)
    else ns[current].previousSibling
  }

  /** `PathIterator::next`: the parent, and the end stays the end. */
  function PathNext<T>(ns: seq<Node<T>>, current: nat): nat
    requires Position(ns, current)
  {
    if current != MAXINT then ns[current].parent else MAXINT
  }

  /** The nodes a path iterator visits from `x` until the end. */
  function PathFrom<T>(ns: seq<Node<T>>, x: nat): seq<nat>
    requires Shaped(ns) && Position(ns, x)
    decreases if x == MAXINT then 0 else x + 1
  {
    if x == MAXINT then []
    else
      assert NodeShaped(ns, x);
      [x] + PathFrom(ns, PathNext(ns, x))
  }

  /** `is_leftmost`: no previous sibling. */
  predicate IsLeftmost<T>(ns: seq<Node<T>>, x: nat)
    requires x < |ns|
  {
    ns[x].previousSibling == MAXINT
  }

  /** `is_rightmost`: no next sibling. */
  predicate IsRightmost<T>(ns: seq<Node<T>>, x: nat)
    requires x < |ns|
  {
    ns[x].nextSibling == MAXINT
  }

  /**
   * `is_valid` with the free list empty, as it always is: the walk over the
   * free list finds nothing, and any index inside the vector is valid.
   */
  predicate IsValid<T>(ns: seq<Node<T>>, x: nat)
  {
    x < |ns|
  }

  /** `get_parent`. */
  function GetParent<T>(ns: seq<Node<T>>, x: nat): nat
    requires x < |ns|
  {
    ns[x].parent
  }

  // ---------------------------------------------------------------------
  // How the iterators walk a well-linked tree.

  /**
   * On a live node other than the root, `get_parent` names the node whose
   * child list holds it, and `is_leftmost` / `is_rightmost` hold exactly when
   * it is the first / last entry of that list.
   */
  lemma NodeQueries<T>(ns: seq<Node<T>>, kids: seq<seq<nat>>, x: nat)
    requires Shaped(ns) && Linked(ns, kids) && Live(ns, kids, x) && x != 0
    ensures IsValid(ns, x)
    ensures GetParent(ns, x) < |ns| && x in kids[GetParent(ns, x)]
    ensures IsLeftmost(ns, x) <==> x == FirstOf(kids[GetParent(ns, x)])
    ensures IsRightmost(ns, x) <==> x == LastOf(kids[GetParent(ns, x)])
  {
    var j := PositionOf(ns, kids, x);
    var p := ns[x].parent;
    EndsAt(ns, kids, p, j);
    ChildAt(ns, kids, p, 0);
    ChildAt(ns, kids, p, |kids[p]| - 1);
  }

  /** The root is valid, its own parent link is null, and it is both leftmost and rightmost. */
  lemma RootQueries<T>(ns: seq<Node<T>>)
    requires Shaped(ns) && |ns| > 0
    ensures IsValid(ns, 0) && GetParent(ns, 0) == MAXINT && IsLeftmost(ns, 0) && IsRightmost(ns, 0)
  {
    assert NodeShaped(ns, 0);
  }

  /** Children iteration steps along the child list of `p`, both ways. */
  lemma ChildrenSteps<T>(ns: seq<Node<T>>, kids: seq<seq<nat>>, p: nat, j: nat)
    requires Shaped(ns) && Linked(ns, kids) && p < |ns| && j < |kids[p]|
    ensures kids[p][j] < |ns|
    ensures ChildrenNext(ns, p, kids[p][j]) == NextIn(kids[p], j)
    ensures ChildrenPrevious(ns, p, kids[p][j]) == PrevIn(kids[p], j)
  {
    ChildAt(ns, kids, p, j);
  }

  /** From the end, children iteration enters the list at its first child forwards and at its last child backwards. */
  lemma ChildrenFromEnd<T>(ns: seq<Node<T>>, kids: seq<seq<nat>>, p: nat)
    requires Shaped(ns) && Linked(ns, kids) && p < |ns|
    ensures ChildrenNext(ns, p, MAXINT) == FirstOf(kids[p])
    ensures ChildrenPrevious(ns, p, MAXINT) == LastOf(kids[p])
  {
    EndsOf(ns, kids, p);
    LeafHasNoKids(ns, kids, p);
  }

  /** A path from `x` has depth + 1 nodes, each one level up from the one before, and ends at the root. */
  lemma {:induction false} PathToRoot<T>(ns: seq<Node<T>>, x: nat)
    requires Shaped(ns) && x < |ns|
    ensures var path := PathFrom(ns, x);
            && |path| == ns[x].depth + 1
            && path[0] == x && path[|path| - 1] == 0
            && forall i :: 0 <= i < |path| ==> path[i] < |ns| && ns[path[i]].depth + i == ns[x].depth
    decreases x
  {
    assert NodeShaped(ns, x);
    if x != 0 {
      var p := ns[x].parent;
      PathToRoot(ns, p);
      var rest := PathFrom(ns, p);
      assert PathFrom(ns, x) == [x] + rest;
    }
  }

  /**
   * Climbing from `z` to the nearest ancestor-or-self with a next sibling
   * stays on the spine whose rightmost leaf is `x`; when there is none, `x`
   * is the rightmost leaf of the whole tree.
   */
  lemma {:induction false} ClimbNextFromRightmost<T>(ns: seq<Node<T>>, kids: seq<seq<nat>>, z: nat, x: nat)
    requires Shaped(ns) && Linked(ns, kids) && Live(ns, kids, z) && Rightmost(ns, z) == x
    ensures var a := ClimbNext(ns, z);
            if a == MAXINT then |ns| > 0 && Rightmost(ns, 0) == x
            else Live(ns, kids, a) && Rightmost(ns, a) == x
    decreases z
  {
    assert NodeShaped(ns, z);
    if z != 0 && ns[z].nextSibling == MAXINT {
      var j := PositionOf(ns, kids, z);
      var q := ns[z].parent;
      EndsAt(ns, kids, q, j);
      EndsAt(ns, kids, q, 0);
      EndsOf(ns, kids, q);
      assert kids[q] != [];
      ChildOf(ns, q, z);
      ClimbNextFromRightmost(ns, kids, q, x);
    }
  }

  /** The leftmost leaf under `z` climbs, over nodes without a previous sibling, to where `z` climbs. */
  lemma {:induction false} ClimbPrevFromLeftmost<T>(ns: seq<Node<T>>, kids: seq<seq<nat>>, z: nat)
    requires Shaped(ns) && Linked(ns, kids) && Live(ns, kids, z)
    ensures ClimbPrev(ns, Leftmost(ns, z)) == ClimbPrev(ns, z)
    decreases |ns| - z
  {
    assert NodeShaped(ns, z);
    if ns[z].firstChild != MAXINT {
      LeafHasNoKids(ns, kids, z);
      EndsOf(ns, kids, z);
      EndsAt(ns, kids, z, 0);
      var c := kids[z][0];
      ChildOf(ns, z, c);
      assert Live(ns, kids, c);
      ClimbPrevFromLeftmost(ns, kids, c);
    }
  }

  /** Pre-order `previous` undoes `next` at every position of a non-empty tree, the end included. */
  lemma PreorderRoundTrip<T>(ns: seq<Node<T>>, kids: seq<seq<nat>>, x: nat)
    requires Shaped(ns) && Linked(ns, kids) && |ns| > 0
    requires x == MAXINT || Live(ns, kids, x)
    ensures PreorderPreviousOf(ns, PreorderNextOf(ns, x)) == x
  {
    assert NodeShaped(ns, 0);
    if x != MAXINT {
      assert NodeShaped(ns, x);
      if ns[x].firstChild != MAXINT {
        LeafHasNoKids(ns, kids, x);
        EndsOf(ns, kids, x);
        EndsAt(ns, kids, x, 0);
      } else {
        ClimbNextFromRightmost(ns, kids, x, x);
        var a := ClimbNext(ns, x);
        if a != MAXINT {
          assert NodeShaped(ns, a);
          var j := PositionOf(ns, kids, a);
          var q := ns[a].parent;
          EndsAt(ns, kids, q, j);
          ChildAt(ns, kids, q, j);
          ChildAt(ns, kids, q, j + 1);
        }
      }
    }
  }

  /** Post-order `previous` undoes `next` at every position of a non-empty tree, the end included. */
  lemma PostorderRoundTrip<T>(ns: seq<Node<T>>, kids: seq<seq<nat>>, x: nat)
    requires Shaped(ns) && Linked(ns, kids) && |ns| > 0
    requires x == MAXINT || Live(ns, kids, x)
    ensures PostorderPreviousOf(ns, PostorderNextOf(ns, x)) == x
  {
    assert NodeShaped(ns, 0);
    if x == MAXINT {
      ClimbPrevFromLeftmost(ns, kids, 0);
    } else if x != 0 {
      assert NodeShaped(ns, x);
      var j := PositionOf(ns, kids, x);
      var q := ns[x].parent;
      EndsAt(ns, kids, q, j);
      if ns[x].nextSibling != MAXINT {
        ChildAt(ns, kids, q, j);
        ChildAt(ns, kids, q, j + 1);
        var s := kids[q][j + 1];
        assert Live(ns, kids, s);
        ClimbPrevFromLeftmost(ns, kids, s);
      } else {
        EndsOf(ns, kids, q);
        EndsAt(ns, kids, q, 0);
      }
    }
  }
}
