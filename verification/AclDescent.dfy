/** The descent of the tree edits: a loop follows the path through the children, creating
    missing nodes or giving up, and the node it ends at is changed in place. Nodes are values
    here, so the nodes passed are kept and a second loop puts the changed node back under them. */
module AclDescent {
  import opened Wrappers
  import opened AuthId
  import opened AclTree
  import opened AclEdits

  function ChildOrEmpty(n: Node, c: string): Node
  {
    if c in n.children then n.children[c] else EMPTY
  }

  /** The tree with `node` on the path `p`. */
  function Replaced(n: Node, p: Path, node: Node): Node
    decreases |p|
  {
    if p == [] then node
    else n.(children := n.children[p[0] := Replaced(ChildOrEmpty(n, p[0]), p[1..], node)])
  }

  /** Each node is the child of the one before, or a new one. */
  ghost predicate Chain(spine: seq<Node>, p: Path)
  {
    1 <= |spine| <= |p| + 1 && forall i :: 0 <= i < |spine| - 1 ==> spine[i + 1] == ChildOrEmpty(spine[i], p[i])
  }

  // ---------------------------------------------------------------- the edits as replacements

  lemma {:induction false} InsertIsReplaced(conf: Conf, n: Node, p: Path, ch: Change)
    ensures ChangeOrInsert(conf, n, p, ch) == Replaced(n, p, ChangeNode(conf, OrEmpty(Find(n, p)), ch))
    decreases |p|
  {
    hide ChangeNode;
    if p != [] {
      InsertIsReplaced(conf, ChildOrEmpty(n, p[0]), p[1..], ch);
      if p[0] !in n.children { FindInEmpty(p[1..]); }
    }
  }

  lemma {:induction false} ExistingIsReplaced(conf: Conf, n: Node, p: Path, ch: Change)
    ensures ChangeExisting(conf, n, p, ch) ==
            match Find(n, p) case None => n case Some(m) => Replaced(n, p, ChangeNode(conf, m, ch))
    decreases |p|
  {
    hide ChangeNode;
    if p != [] && p[0] in n.children {
      ExistingIsReplaced(conf, n.children[p[0]], p[1..], ch);
      if Find(n, p).None? { assert n.children[p[0] := n.children[p[0]]] == n.children; }
    }
  }

  /** Deleting a node takes it out of its parent's children, if there is a parent. */
  lemma {:induction false} RemoveIsReplaced(n: Node, p: Path)
    requires p != []
    ensures var parent := p[..|p| - 1];
            RemoveNode(n, p) ==
            match Find(n, parent)
            case None => n
            case Some(m) => Replaced(n, parent, m.(children := m.children - {p[|p| - 1]}))
    decreases |p|
  {
    var parent, last := p[..|p| - 1], p[|p| - 1];
    if |p| == 1 {
      if last !in n.children { assert n.children - {last} == n.children; }
    } else if p[0] in n.children {
      var child := n.children[p[0]];
      RemoveIsReplaced(child, p[1..]);
      assert p[1..][..|p[1..]| - 1] == parent[1..] && p[1..][|p[1..]| - 1] == last;
      if Find(child, parent[1..]).None? { assert n.children[p[0] := child] == n.children; }
    }
  }

  // ---------------------------------------------------------------- the loops

  lemma {:induction false} ChainEnd(spine: seq<Node>, p: Path, k: nat)
    requires Chain(spine, p) && k < |spine|
    ensures OrEmpty(Find(spine[0], p[..k])) == spine[k]
    decreases k
  {
    if k > 0 {
      ChainEnd(spine, p, k - 1);
      FindPrefix(spine[0], p, k - 1);
      assert p[..k - 1 + 1] == p[..k];
    }
  }

  /** `get_node_mut` and `get_or_insert_node`: the nodes on the path, as far as there are any. */
  method Descend(root: Node, p: Path, insert: bool) returns (spine: seq<Node>)
    ensures Chain(spine, p) && spine[0] == root
    ensures |spine| == |p| + 1 <==> insert || Find(root, p).Some?
    ensures |spine| == |p| + 1 ==> spine[|p|] == OrEmpty(Find(root, p))
  {
    var node := root;
    spine := [root];
    for i := 0 to |p|
      invariant Chain(spine, p) && |spine| == i + 1 && spine[0] == root && spine[i] == node
      invariant insert || Find(root, p[..i]) == Some(node)
    {
      FindPrefix(root, p, i);
      if p[i] in node.children {
        node := node.children[p[i]];
      } else if insert {
        node := EMPTY;
      } else {
        Missing(root, p, i);
        return;
      }
      spine := spine + [node];
    }
    assert p[..|p|] == p;
    ChainEnd(spine, p, |p|);
  }

  lemma Missing(root: Node, p: Path, i: nat)
    requires i < |p| && Find(root, p[..i + 1]).None?
    ensures Find(root, p).None?
  {
    assert p[..|p|] == p;
    if i + 1 < |p| { FindMissing(root, p, i, |p|); }
  }

  /** The change of the last node, seen from the root. */
  method PutBack(spine: seq<Node>, p: Path, changed: Node) returns (root: Node)
    requires Chain(spine, p) && |spine| == |p| + 1
    ensures root == Replaced(spine[0], p, changed)
  {
    root := changed;
    var i := |p|;
    while i > 0
      invariant 0 <= i <= |p| && root == Replaced(spine[i], p[i..], changed)
    {
      i := i - 1;
      assert p[i..][1..] == p[i + 1..];
      root := spine[i].(children := spine[i].children[p[i] := root]);
    }
    assert p[0..] == p;
  }

  /** A change on a path, creating missing nodes. */
  method ChangeInserting(conf: Conf, root: Node, p: Path, ch: Change) returns (r: Node)
    ensures r == ChangeOrInsert(conf, root, p, ch)
  {
    hide ChangeNode, Chain, Replaced;
    var spine := Descend(root, p, true);
    r := PutBack(spine, p, ChangeNode(conf, spine[|p|], ch));
    InsertIsReplaced(conf, root, p, ch);
  }

  /** A change on a path that does nothing when a node is missing. */
  method ChangeIfThere(conf: Conf, root: Node, p: Path, ch: Change) returns (r: Node)
    ensures r == ChangeExisting(conf, root, p, ch)
  {
    hide ChangeNode, Chain, Replaced;
    ExistingIsReplaced(conf, root, p, ch);
    var spine := Descend(root, p, false);
    if |spine| < |p| + 1 { return root; }
    r := PutBack(spine, p, ChangeNode(conf, spine[|p|], ch));
  }

  /** Takes the last component out of its parent's children. */
  method RemoveFromParent(root: Node, p: Path) returns (r: Node)
    ensures r == RemoveNode(root, p)
  {
    hide Chain, Replaced;
    if p == [] { return root; }
    var parent, name := p[..|p| - 1], p[|p| - 1];
    RemoveIsReplaced(root, p);
    var spine := Descend(root, parent, false);
    if |spine| < |parent| + 1 { return root; }
    var node := spine[|parent|];
    r := PutBack(spine, parent, node.(children := node.children - {name}));
  }

  /** Removes an id from a node and, in any order, from the nodes below. */
  method RemoveEverywhere(n: Node, id: Authid) returns (r: Node)
    ensures r == RemoveAuthid(n, id)
    decreases n
  {
    var todo, children := n.children.Keys, n.children;
    while todo != {}
      invariant todo <= n.children.Keys && children.Keys == n.children.Keys
      invariant forall c :: c in children ==>
                  children[c] == if c in todo then n.children[c] else RemoveAuthid(n.children[c], id)
      decreases todo
    {
      var c :| c in todo;
      var child := RemoveEverywhere(n.children[c], id);
      children := children[c := child];
      todo := todo - {c};
    }
    r := Node(n.users - {id}, n.groups, children);
    assert children == map c | c in n.children :: RemoveAuthid(n.children[c], id);
  }
}
