/** Depth-first traversals of a binary tree of string labels, and the
    edge-list tree builder that links labelled nodes left-then-right. */
module BinaryTree {

  import opened Common

  /** An immutable binary tree; `Nil` plays the part of a missing child. */
  datatype Tree = Nil | Node(left: Tree, val: string, right: Tree)

  function Size(t: Tree): nat
  {
    match t
    case Nil => 0
    case Node(l, _, r) => Size(l) + 1 + Size(r)
  }

  /** Every label of the tree, one per node. */
  function Labels(t: Tree): multiset<string>
  {
    match t
    case Nil => multiset{}
    case Node(l, v, r) => Labels(l) + multiset{v} + Labels(r)
  }

  /** Left subtree, root, right subtree. */
  function Inorder(t: Tree): seq<string>
  {
    match t
    case Nil => []
    case Node(l, v, r) => Inorder(l) + [v] + Inorder(r)
  }

  /** Root, left subtree, right subtree. */
  function Preorder(t: Tree): seq<string>
  {
    match t
    case Nil => []
    case Node(l, v, r) => [v] + Preorder(l) + Preorder(r)
  }

  /** Left subtree, right subtree, root. */
  function Postorder(t: Tree): seq<string>
  {
    match t
    case Nil => []
    case Node(l, v, r) => Postorder(l) + Postorder(r) + [v]
  }

  /** Inorder lists every node exactly once. */
  lemma {:induction false} InorderListsEveryNode(t: Tree)
    ensures |Inorder(t)| == Size(t) && multiset(Inorder(t)) == Labels(t)
  {
    match t
    case Nil =>
    case Node(l, v, r) =>
      InorderListsEveryNode(l);
      InorderListsEveryNode(r);
      assert multiset(Inorder(t)) == multiset(Inorder(l)) + multiset([v]) + multiset(Inorder(r));
  }

  /** Preorder lists every node exactly once. */
  lemma {:induction false} PreorderListsEveryNode(t: Tree)
    ensures |Preorder(t)| == Size(t) && multiset(Preorder(t)) == Labels(t)
  {
    match t
    case Nil =>
    case Node(l, v, r) =>
      PreorderListsEveryNode(l);
      PreorderListsEveryNode(r);
      assert multiset(Preorder(t)) == multiset([v]) + multiset(Preorder(l)) + multiset(Preorder(r));
  }

  /** Postorder lists every node exactly once. */
  lemma {:induction false} PostorderListsEveryNode(t: Tree)
    ensures |Postorder(t)| == Size(t) && multiset(Postorder(t)) == Labels(t)
  {
    match t
    case Nil =>
    case Node(l, v, r) =>
      PostorderListsEveryNode(l);
      PostorderListsEveryNode(r);
      assert multiset(Postorder(t)) == multiset(Postorder(l)) + multiset(Postorder(r)) + multiset([v]);
  }

  /** The three traversals are reorderings of one another. */
  lemma TraversalsAgree(t: Tree)
    ensures |Inorder(t)| == |Preorder(t)| == |Postorder(t)|
    ensures multiset(Inorder(t)) == multiset(Preorder(t)) == multiset(Postorder(t))
  {
    InorderListsEveryNode(t);
    PreorderListsEveryNode(t);
    PostorderListsEveryNode(t);
  }

  /** Preorder starts with the root, postorder ends with it, and inorder has
      it right after the whole left subtree. */
  lemma {:induction false} RootPositions(t: Tree)
    requires t.Node?
    ensures Preorder(t)[0] == t.val
    ensures Postorder(t)[|Postorder(t)| - 1] == t.val
    ensures |Inorder(t.left)| < |Inorder(t)| && Inorder(t)[|Inorder(t.left)|] == t.val
  {
  }

  /** A node of the linked structure the builder produces; the label never
      changes, the child links are set while the edges are read. */
  class TreeNode {
    const val: string
    var left: TreeNode?
    var right: TreeNode?

    constructor (value: string)
      ensures val == value && left == null && right == null
    {
      val := value;
      left := null;
      right := null;
    }
  }

  /** One input line split on white space; only lines of exactly two
      tokens (parent label, child label) are edges. */
  predicate IsEdge(line: seq<string>)
  {
    |line| == 2
  }

  /** Every label that occurs in one of the first `n` edge lines. */
  function LabelsOf(lines: seq<seq<string>>, n: nat): set<string>
    requires n <= |lines|
  {
    if n == 0 then {}
    else LabelsOf(lines, n - 1) + (if IsEdge(lines[n - 1]) then {lines[n - 1][0], lines[n - 1][1]} else {})
  }

  /** The child labels given for `parent` in the first `n` lines, in input order. */
  function ChildrenOf(lines: seq<seq<string>>, n: nat, parent: string): (cs: seq<string>)
    requires n <= |lines|
  {
    if n == 0 then []
    else
      var rest := ChildrenOf(lines, n - 1, parent);
      if IsEdge(lines[n - 1]) && lines[n - 1][0] == parent then rest + [lines[n - 1][1]] else rest
  }

  /** The parent label of the first edge line among the first `n`, if any. */
  function FirstParent(lines: seq<seq<string>>, n: nat): Option<string>
    requires n <= |lines|
  {
    if n == 0 then None
    else if FirstParent(lines, n - 1).Some? then FirstParent(lines, n - 1)
    else if IsEdge(lines[n - 1]) then Some(lines[n - 1][0])
    else None
  }

  /** The first parent is the parent of an edge line that no edge line precedes. */
  lemma {:induction false} FirstParentIsFirst(lines: seq<seq<string>>, n: nat)
    requires n <= |lines|
    ensures FirstParent(lines, n) == None <==> forall k :: 0 <= k < n ==> !IsEdge(lines[k])
    ensures FirstParent(lines, n).Some? ==>
      exists k :: 0 <= k < n && IsEdge(lines[k]) && lines[k][0] == FirstParent(lines, n).value &&
                  forall j :: 0 <= j < k ==> !IsEdge(lines[j])
  {
    if n > 0 {
      FirstParentIsFirst(lines, n - 1);
    }
  }

  /** A label with children occurs in the edge lines, and so does each child. */
  lemma {:induction false} ChildrenOccur(lines: seq<seq<string>>, n: nat, parent: string)
    requires n <= |lines|
    ensures ChildrenOf(lines, n, parent) != [] ==> parent in LabelsOf(lines, n)
    ensures forall c :: c in ChildrenOf(lines, n, parent) ==> c in LabelsOf(lines, n)
  {
    if n > 0 {
      ChildrenOccur(lines, n - 1, parent);
    }
  }

  /** The builder reads the lines one at a time.  A label gets a single node
      the first time it is seen, the first parent becomes the root, and a child
      goes to `left` when that is free, else to `right`, else it is ignored.
      The program decrements its loop counter when it ignores a child, which
      has no effect on a Python `for` loop: every line is read exactly once. */
  method BuildTree(lines: seq<seq<string>>) returns (root: TreeNode?, nodes: map<string, TreeNode>)
    ensures nodes.Keys == LabelsOf(lines, |lines|)
    ensures forall a :: a in nodes ==> fresh(nodes[a]) && nodes[a].val == a
    ensures forall a, b :: a in nodes && b in nodes && a != b ==> nodes[a] != nodes[b]
    ensures FirstParent(lines, |lines|) == None ==> root == null
    ensures FirstParent(lines, |lines|).Some? ==> FirstParent(lines, |lines|).value in nodes && root == nodes[FirstParent(lines, |lines|).value]
    ensures forall a {:trigger ChildrenOf(lines, |lines|, a)} :: a in nodes ==> Linked(nodes, nodes[a].left, nodes[a].right, ChildrenOf(lines, |lines|, a))
  {
    nodes := map[];
    root := null;
    for i := 0 to |lines|
      invariant nodes.Keys == LabelsOf(lines, i)
      invariant forall a :: a in nodes ==> fresh(nodes[a]) && nodes[a].val == a
      invariant FirstParent(lines, i) == None ==> root == null
      invariant FirstParent(lines, i).Some? ==> FirstParent(lines, i).value in nodes && root == nodes[FirstParent(lines, i).value]
      invariant forall a {:trigger ChildrenOf(lines, i, a)} :: a in nodes ==> Linked(nodes, nodes[a].left, nodes[a].right, ChildrenOf(lines, i, a))
    {
      var pair := lines[i];
      if |pair| == 2 {
        var parentVal, childVal := pair[0], pair[1];
        root, nodes := AddEdge(lines, i, root, nodes, parentVal, childVal);
      }
    }
  }

  /** One edge line of the builder, the body of its loop. */
  method AddEdge(ghost lines: seq<seq<string>>, ghost i: nat, root0: TreeNode?, nodes0: map<string, TreeNode>,
                 parentVal: string, childVal: string)
    returns (root: TreeNode?, nodes: map<string, TreeNode>)
    requires i < |lines| && lines[i] == [parentVal, childVal]
    requires nodes0.Keys == LabelsOf(lines, i)
    requires forall a :: a in nodes0 ==> nodes0[a].val == a
    requires FirstParent(lines, i) == None ==> root0 == null
    requires FirstParent(lines, i).Some? ==> FirstParent(lines, i).value in nodes0 && root0 == nodes0[FirstParent(lines, i).value]
    requires forall a {:trigger ChildrenOf(lines, i, a)} :: a in nodes0 ==> Linked(nodes0, nodes0[a].left, nodes0[a].right, ChildrenOf(lines, i, a))
    modifies if parentVal in nodes0 then {nodes0[parentVal]} else {}
    ensures nodes.Keys == LabelsOf(lines, i + 1)
    ensures forall a :: a in nodes ==> (a in nodes0 ==> nodes[a] == nodes0[a]) && (a !in nodes0 ==> fresh(nodes[a])) && nodes[a].val == a
    ensures FirstParent(lines, i + 1).Some? && FirstParent(lines, i + 1).value in nodes && root == nodes[FirstParent(lines, i + 1).value]
    ensures forall a {:trigger ChildrenOf(lines, i + 1, a)} :: a in nodes ==> Linked(nodes, nodes[a].left, nodes[a].right, ChildrenOf(lines, i + 1, a))
  {
    assert LabelsOf(lines, i + 1) == LabelsOf(lines, i) + {parentVal, childVal};
    root := root0;
    nodes := NodesFor(lines, i, nodes0, parentVal, childVal);
    if root == null {
      root := nodes[parentVal];
    }
    var parentNode := nodes[parentVal];
    label Linking:
    Attach(parentNode, nodes[childVal]);
    forall a | a in nodes
      ensures Linked(nodes, nodes[a].left, nodes[a].right, ChildrenOf(lines, i + 1, a))
    {
      var cs := ChildrenOf(lines, i, a);
      assert Linked(nodes, old@Linking(nodes[a].left), old@Linking(nodes[a].right), cs);
      if a != parentVal {
        assert ChildrenOf(lines, i + 1, a) == cs;
        assert nodes[a] != parentNode;
      } else {
        assert ChildrenOf(lines, i + 1, a) == cs + [childVal];
      }
    }
  }

  /** The nodes of both labels of edge line `i`, before they are linked. */
  method NodesFor(ghost lines: seq<seq<string>>, ghost i: nat, nodes0: map<string, TreeNode>, parentVal: string, childVal: string)
    returns (nodes: map<string, TreeNode>)
    requires i < |lines|
    requires nodes0.Keys == LabelsOf(lines, i)
    requires forall a :: a in nodes0 ==> nodes0[a].val == a
    requires forall a {:trigger ChildrenOf(lines, i, a)} :: a in nodes0 ==> Linked(nodes0, nodes0[a].left, nodes0[a].right, ChildrenOf(lines, i, a))
    ensures nodes.Keys == nodes0.Keys + {parentVal, childVal}
    ensures forall a :: a in nodes ==> (a in nodes0 ==> nodes[a] == nodes0[a]) && (a !in nodes0 ==> fresh(nodes[a])) && nodes[a].val == a
    ensures forall a {:trigger ChildrenOf(lines, i, a)} :: a in nodes ==> Linked(nodes, nodes[a].left, nodes[a].right, ChildrenOf(lines, i, a))
  {
    nodes := NodeFor(nodes0, parentVal);
    nodes := NodeFor(nodes, childVal);
    forall a | a in nodes
      ensures Linked(nodes, nodes[a].left, nodes[a].right, ChildrenOf(lines, i, a))
    {
      if a !in nodes0 {
        ChildrenOccur(lines, i, a);
      }
    }
  }

  /** The node of `label`, created without children the first time the
      label is seen. */
  method NodeFor(nodes0: map<string, TreeNode>, name: string) returns (nodes: map<string, TreeNode>)
    requires forall a :: a in nodes0 ==> nodes0[a].val == a
    ensures nodes.Keys == nodes0.Keys + {name}
    ensures forall a :: a in nodes ==> nodes[a].val == a
    ensures forall a :: a in nodes0 ==> nodes[a] == nodes0[a]
    ensures name !in nodes0 ==> fresh(nodes[name]) && nodes[name].left == null && nodes[name].right == null
  {
    nodes := nodes0;
    if name !in nodes {
      var n := new TreeNode(name);
      nodes := nodes[name := n];
    }
  }

  /** Links `child` under `parent`: into `left` when that is free, else into
      `right`, else not at all. */
  method Attach(parent: TreeNode, child: TreeNode)
    modifies parent
    ensures old(parent.left) == null ==> parent.left == child && parent.right == old(parent.right)
    ensures old(parent.left) != null && old(parent.right) == null ==> parent.left == old(parent.left) && parent.right == child
    ensures old(parent.left) != null && old(parent.right) != null ==> parent.left == old(parent.left) && parent.right == old(parent.right)
  {
    if parent.left == null {
      parent.left := child;
    } else if parent.right == null {
      parent.right := child;
    } else {
      // the third and later children of a node are ignored
    }
  }

  /** `left` and `right` are the nodes of the first two children `cs`. */
  predicate Linked(nodes: map<string, TreeNode>, left: TreeNode?, right: TreeNode?, cs: seq<string>)
  {
    && (if |cs| >= 1 then cs[0] in nodes && left == nodes[cs[0]] else left == null)
    && (if |cs| >= 2 then cs[1] in nodes && right == nodes[cs[1]] else right == null)
  }
}
