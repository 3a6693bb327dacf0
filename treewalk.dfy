/**
 * `recursive_children`: the names of every descendant of a tree item, in
 * pre-order. A node stands for a tree-widget item: its column-0 text and
 * its children in index order.
 */
module TreeWalk {

  datatype Node = Node(name: string, children: seq<Node>)

  /** `recursive_children(item)`: the item's own name is not part of the result. */
  function RecursiveChildren(n: Node): (names: seq<string>)
    ensures |names| == Size(n) - 1
    decreases n, 1
  {
    Walk(n.children)
  }

  /**
   * What the loop of `recursive_children` has collected once it has visited
   * `children`: for each child in turn its name, then its own descendants.
   */
  function Walk(children: seq<Node>): (names: seq<string>)
    ensures |names| == ForestSize(children)
    decreases children, 0
  {
    if children == [] then []
    else
      var last := children[|children| - 1];
      Walk(children[..|children| - 1]) + [last.name] + RecursiveChildren(last)
  }

  /** Number of nodes in a tree, the root included. */
  function Size(n: Node): nat
    decreases n, 1
  {
    1 + ForestSize(n.children)
  }

  function ForestSize(children: seq<Node>): nat
    decreases children, 0
  {
    if children == [] then 0
    else ForestSize(children[..|children| - 1]) + Size(children[|children| - 1])
  }

  /**
   * The walk yields one name per descendant, and nothing exactly for a leaf.
   */
  lemma DescendantCount(n: Node)
    ensures |RecursiveChildren(n)| == Size(n) - 1
    ensures RecursiveChildren(n) == [] <==> n.children == []
  {
    if n.children != [] {
      var last := n.children[|n.children| - 1];
      assert Size(last) >= 1;
    }
  }

  /** The walk over a prefix of the children is a prefix of the whole walk. */
  lemma {:induction false} WalkPrefix(children: seq<Node>, k: nat)
    requires k <= |children|
    ensures Walk(children[..k]) <= Walk(children)
    decreases |children|
  {
    if k < |children| {
      var init := children[..|children| - 1];
      assert init[..k] == children[..k];
      WalkPrefix(init, k);
    } else {
      assert children[..k] == children;
    }
  }

  /**
   * Pre-order layout: the `i`-th child's name comes right after everything
   * collected for the children before it, immediately followed by the names
   * of that child's own descendants.
   */
  lemma {:induction false} WalkLayout(children: seq<Node>, i: nat)
    requires i < |children|
    ensures var start := ForestSize(children[..i]);
      var c := children[i];
      && start + Size(c) <= |Walk(children)|
      && Walk(children)[start] == c.name
      && Walk(children)[start + 1..start + Size(c)] == RecursiveChildren(c)
  {
    var c := children[i];
    var upto := children[..i + 1];
    assert upto[..i] == children[..i];
    assert Walk(upto) == Walk(children[..i]) + [c.name] + RecursiveChildren(c);
    WalkPrefix(children, i + 1);
  }

  /**
   * `recursive_children` lists the children in index order, each child's
   * name immediately before the names of its own descendants.
   */
  lemma PreorderLayout(n: Node, i: nat)
    requires i < |n.children|
    ensures var start := ForestSize(n.children[..i]);
      var c := n.children[i];
      && start + Size(c) <= |RecursiveChildren(n)|
      && RecursiveChildren(n)[start] == c.name
      && RecursiveChildren(n)[start + 1..start + Size(c)] == RecursiveChildren(c)
  {
    WalkLayout(n.children, i);
  }

  /** A path of child indices leading down from `n`. */
  ghost predicate IsPath(n: Node, path: seq<nat>)
    decreases path
  {
    path == [] || (path[0] < |n.children| && IsPath(n.children[path[0]], path[1..]))
  }

  /** The node a path leads to. */
  ghost function At(n: Node, path: seq<nat>): Node
    requires IsPath(n, path)
    decreases path
  {
    if path == [] then n else At(n.children[path[0]], path[1..])
  }

  /** Every proper descendant's name is in the result. */
  lemma {:induction false} DescendantsListed(n: Node, path: seq<nat>)
    requires IsPath(n, path) && path != []
    ensures At(n, path).name in RecursiveChildren(n)
    decreases path
  {
    var i := path[0];
    var c := n.children[i];
    WalkLayout(n.children, i);
    var start := ForestSize(n.children[..i]);
    if path[1..] == [] {
      assert RecursiveChildren(n)[start] == c.name;
    } else {
      DescendantsListed(c, path[1..]);
      var x := At(c, path[1..]).name;
      var k :| 0 <= k < |RecursiveChildren(c)| && RecursiveChildren(c)[k] == x;
      assert RecursiveChildren(n)[start + 1 + k] == x;
    }
  }

  /** Every name in the result is that of a proper descendant. */
  lemma {:induction false} ListedAreDescendants(n: Node, x: string)
    requires x in RecursiveChildren(n)
    ensures exists path :: IsPath(n, path) && path != [] && At(n, path).name == x
    decreases n, 1
  {
    var i, q := WalkMember(n.children, x);
    var path := [i] + q;
    assert path[1..] == q;
    assert IsPath(n, path) && At(n, path) == At(n.children[i], q);
  }

  lemma {:induction false} WalkMember(children: seq<Node>, x: string) returns (i: nat, q: seq<nat>)
    requires x in Walk(children)
    ensures i < |children| && IsPath(children[i], q) && At(children[i], q).name == x
    decreases children, 0
  {
    var init := children[..|children| - 1];
    var last := children[|children| - 1];
    assert Walk(children) == Walk(init) + [last.name] + RecursiveChildren(last);
    if x in Walk(init) {
      i, q := WalkMember(init, x);
    } else if x == last.name {
      i, q := |children| - 1, [];
    } else {
      ListedAreDescendants(last, x);
      var p :| IsPath(last, p) && p != [] && At(last, p).name == x;
      i, q := |children| - 1, p;
    }
  }

  /** The loop of `recursive_children`, visiting the children in index order. */
  method CollectChildren(n: Node) returns (names: seq<string>)
    ensures names == RecursiveChildren(n)
    decreases n
  {
    names := [];
    for i := 0 to |n.children|
      invariant names == Walk(n.children[..i])
    {
      var child := n.children[i];
      names := names + [child.name];
      var below := CollectChildren(child);
      names := names + below;
      assert n.children[..i + 1][..i] == n.children[..i];
    }
    assert n.children[..|n.children|] == n.children;
  }
}
