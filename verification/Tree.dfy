/**
 Search and iteration in the linked binary search trees that index segments, threads,
 processes and jumps.
 */
module Tree {

  class Node<V> {
    const key: nat
    const val: V
    var left: Node?<V>
    var right: Node?<V>
    var parent: Node?<V>

    constructor (key: nat, val: V)
      ensures this.key == key && this.val == val && left == null && right == null && parent == null
    {
      this.key, this.val := key, val;
      left, right, parent := null, null, null;
    }
  }

  // ----- The nodes below a pointer -----

  datatype Shape<V> = Leaf | Fork(node: Node<V>, left: Shape<V>, right: Shape<V>)

  ghost function InOrder<V>(s: Shape<V>): seq<Node<V>> {
    match s
    case Leaf => []
    case Fork(n, l, r) => InOrder(l) + [n] + InOrder(r)
  }

  ghost function Nodes<V>(s: Shape<V>): set<Node<V>> {
    match s
    case Leaf => {}
    case Fork(n, l, r) => Nodes(l) + {n} + Nodes(r)
  }

  ghost function Top<V>(s: Shape<V>): Node?<V> { if s.Leaf? then null else s.node }

  /** The nodes are linked as s says, below the given parent. */
  ghost predicate Linked<V>(s: Shape<V>, parent: Node?<V>)
    reads Nodes(s)
  {
    match s
    case Leaf => true
    case Fork(n, l, r) => n.parent == parent && n.left == Top(l) && n.right == Top(r) && Linked(l, n) && Linked(r, n)
  }

  ghost predicate Ascending<V>(ns: seq<Node<V>>) { forall i, j :: 0 <= i < j < |ns| ==> ns[i].key < ns[j].key }

  /** A search tree whose root has no parent. */
  ghost predicate SearchTree<V>(s: Shape<V>)
    reads Nodes(s)
  {
    Linked(s, null) && Ascending(InOrder(s))
  }

  // ----- Places in a tree -----

  ghost predicate ValidPath<V>(s: Shape<V>, path: seq<bool>)
    decreases |path|
  {
    path == [] || (s.Fork? && ValidPath(if path[0] then s.right else s.left, path[1..]))
  }

  /** The subtree at the end of a path; true stands for right. */
  ghost function At<V>(s: Shape<V>, path: seq<bool>): Shape<V>
    requires ValidPath(s, path)
    decreases |path|
  {
    if path == [] then s else At(if path[0] then s.right else s.left, path[1..])
  }

  /** How many nodes are left of it. */
  ghost function Before<V>(s: Shape<V>, path: seq<bool>): nat
    requires ValidPath(s, path)
    decreases |path|
  {
    if path == [] then 0
    else if path[0] then |InOrder(s.left)| + 1 + Before(s.right, path[1..])
    else Before(s.left, path[1..])
  }

  /** A subtree holds consecutive nodes of the whole. */
  lemma {:induction false} Window<V>(s: Shape<V>, path: seq<bool>)
    requires ValidPath(s, path)
    ensures Before(s, path) + |InOrder(At(s, path))| <= |InOrder(s)|
    ensures InOrder(s)[Before(s, path)..Before(s, path) + |InOrder(At(s, path))|] == InOrder(At(s, path))
    decreases |path|
  {
    if path != [] {
      Window(if path[0] then s.right else s.left, path[1..]);
    }
  }

  /** One step down. */
  lemma {:induction false} Down<V>(s: Shape<V>, path: seq<bool>, right: bool)
    requires ValidPath(s, path) && At(s, path).Fork?
    ensures ValidPath(s, path + [right])
    ensures At(s, path + [right]) == if right then At(s, path).right else At(s, path).left
    ensures Before(s, path + [right]) == Before(s, path) + if right then |InOrder(At(s, path).left)| + 1 else 0
    decreases |path|
  {
    if path == [] {
      assert [right][1..] == [];
    } else {
      Down(if path[0] then s.right else s.left, path[1..], right);
      assert (path + [right])[1..] == path[1..] + [right];
    }
  }

  /** One step up. */
  lemma {:induction false} Up<V>(s: Shape<V>, path: seq<bool>)
    requires ValidPath(s, path) && path != []
    ensures var up := path[..|path| - 1]; ValidPath(s, up) && At(s, up).Fork?
    decreases |path|
  {
    if |path| > 1 {
      Up(if path[0] then s.right else s.left, path[1..]);
      assert path[..|path| - 1][1..] == path[1..][..|path| - 2];
    }
  }

  lemma {:induction false} LinkedAt<V>(s: Shape<V>, parent: Node?<V>, path: seq<bool>)
    requires Linked(s, parent) && ValidPath(s, path)
    ensures path == [] ==> Linked(At(s, path), parent)
    ensures path != [] ==> (Up(s, path); Linked(At(s, path), At(s, path[..|path| - 1]).node))
    decreases |path|
  {
    if path != [] {
      var child := if path[0] then s.right else s.left;
      LinkedAt(child, s.node, path[1..]);
      if |path| > 1 {
        Up(child, path[1..]);
        assert path[..|path| - 1][1..] == path[1..][..|path| - 2];
      }
    }
  }

  /** The way to the node at position i. */
  ghost function PathTo<V>(s: Shape<V>, i: nat): (path: seq<bool>)
    requires i < |InOrder(s)|
    ensures ValidPath(s, path) && At(s, path).Fork? && Before(s, path) + |InOrder(At(s, path).left)| == i
  {
    var l := |InOrder(s.left)|;
    if i == l then []
    else if i < l then
      var path := PathTo(s.left, i);
      assert ([false] + path)[1..] == path;
      [false] + path
    else
      var path := PathTo(s.right, i - l - 1);
      assert ([true] + path)[1..] == path;
      [true] + path
  }

  /** The place of the subtree's root, its links, and the bounds of the subtree. */
  lemma Here<V>(s: Shape<V>, path: seq<bool>)
    requires SearchTree(s) && ValidPath(s, path) && At(s, path).Fork?
    ensures var t := At(s, path); var i := Before(s, path) + |InOrder(t.left)|;
      i + |InOrder(t.right)| < |InOrder(s)| && InOrder(s)[i] == t.node
    ensures var t := At(s, path); t.node.left == Top(t.left) && t.node.right == Top(t.right)
  {
    var t := At(s, path);
    Window(s, path);
    LinkedAt(s, null, path);
    assert InOrder(t)[|InOrder(t.left)|] == t.node;
  }

  // ----- Searching -----

  /** Nodes with this key can only be at this place. */
  ghost predicate Bracket<V>(s: Shape<V>, path: seq<bool>, key: nat)
    requires ValidPath(s, path)
  {
    && (forall i :: 0 <= i < Before(s, path) && i < |InOrder(s)| ==> InOrder(s)[i].key < key)
    && (forall i :: Before(s, path) + |InOrder(At(s, path))| <= i < |InOrder(s)| ==> InOrder(s)[i].key > key)
  }

  lemma KeysAround<V>(s: Shape<V>, i: nat)
    requires SearchTree(s) && i < |InOrder(s)|
    ensures forall j :: 0 <= j < i ==> InOrder(s)[j].key < InOrder(s)[i].key
    ensures forall j :: i < j < |InOrder(s)| ==> InOrder(s)[j].key > InOrder(s)[i].key
  {
  }

  lemma Narrow<V>(s: Shape<V>, path: seq<bool>, key: nat)
    requires SearchTree(s) && ValidPath(s, path) && At(s, path).Fork? && Bracket(s, path, key)
    requires key != At(s, path).node.key
    ensures var right := key > At(s, path).node.key; ValidPath(s, path + [right]) && Bracket(s, path + [right], key)
  {
    hide SearchTree, ValidPath, Before, At;
    Here(s, path);
    var t, right := At(s, path), key > At(s, path).node.key;
    Down(s, path, right);
    assert |InOrder(t)| == |InOrder(t.left)| + 1 + |InOrder(t.right)|;
    KeysAround(s, Before(s, path) + |InOrder(t.left)|);
  }

  method GetNode<V>(root: Node?<V>, key: nat, ghost s: Shape<V>) returns (node: Node?<V>)
    requires SearchTree(s) && root == Top(s)
    ensures node != null ==> node in InOrder(s) && node.key == key
    ensures node == null ==> forall n :: n in InOrder(s) ==> n.key != key
  {
    node := root;
    ghost var path: seq<bool> := [];
    while node != null && key != node.key
      invariant SearchTree(s) && ValidPath(s, path) && node == Top(At(s, path)) && Bracket(s, path, key)
      decreases At(s, path)
    {
      Here(s, path);
      Narrow(s, path, key);
      Down(s, path, key > node.key);
      path := path + [key > node.key];
      if key < node.key {
        node := node.left;
      } else {
        node := node.right;
      }
    }
    if node != null {
      Here(s, path);
    }
  }

  /** The node at position i is where a search for the key ends: the key itself, or the last
      below it without a right child, or the first above it without a left child. */
  ghost predicate Close<V>(s: Shape<V>, i: nat, key: nat)
    reads Nodes(s)
  {
    var ns := InOrder(s);
    && i < |ns|
    && (ns[i].key <= key ==> forall j :: i < j < |ns| ==> ns[j].key > key)
    && (ns[i].key > key ==> (forall j :: 0 <= j < i ==> ns[j].key < key) && ns[i] in Nodes(s) && ns[i].left == null)
  }

  /** A search that ends at a place. */
  lemma EndsHere<V>(s: Shape<V>, path: seq<bool>, key: nat) returns (i: nat)
    requires SearchTree(s) && ValidPath(s, path) && At(s, path).Fork? && Bracket(s, path, key)
    requires var n := At(s, path).node;
             key == n.key || (key < n.key && n.left == null) || (key > n.key && n.right == null)
    ensures i < |InOrder(s)| && InOrder(s)[i] == At(s, path).node && Close(s, i, key)
  {
    Here(s, path);
    var t := At(s, path);
    i := Before(s, path) + |InOrder(t.left)|;
    NodesInOrder(s, i);
  }

  lemma {:induction false} NodesInOrder<V>(s: Shape<V>, i: nat)
    requires i < |InOrder(s)|
    ensures InOrder(s)[i] in Nodes(s)
  {
    var l := |InOrder(s.left)|;
    if i < l {
      NodesInOrder(s.left, i);
    } else if i > l {
      NodesInOrder(s.right, i - l - 1);
    }
  }

  method GetCloseNode<V>(root: Node?<V>, key: nat, ghost s: Shape<V>) returns (node: Node?<V>, ghost i: nat)
    requires SearchTree(s) && root == Top(s)
    ensures node == null <==> InOrder(s) == []
    ensures node != null ==> i < |InOrder(s)| && node == InOrder(s)[i] && Close(s, i, key)
    ensures SearchTree(s)
  {
    node, i := root, 0;
    if node == null {
      return;
    }
    ghost var path: seq<bool> := [];
    while key != node.key
      invariant SearchTree(s) && ValidPath(s, path) && node != null && node == Top(At(s, path)) && Bracket(s, path, key)
      decreases At(s, path)
    {
      Here(s, path);
      var next := if key < node.key then node.left else node.right;
      if next == null {
        i := EndsHere(s, path, key);
        return;
      }
      Narrow(s, path, key);
      Down(s, path, key > node.key);
      path := path + [key > node.key];
      node := next;
    }
    i := EndsHere(s, path, key);
  }

  // ----- Iteration -----

  /** The lowest node of the subtree at a path. */
  method GetMin<V>(start: Node<V>, ghost s: Shape<V>, ghost path: seq<bool>) returns (node: Node<V>)
    requires SearchTree(s) && ValidPath(s, path) && At(s, path).Fork? && At(s, path).node == start
    ensures SearchTree(s) && Before(s, path) < |InOrder(s)| && node == InOrder(s)[Before(s, path)]
  {
    node := start;
    ghost var p := path;
    Here(s, p);
    while node.left != null
      invariant SearchTree(s) && ValidPath(s, p) && At(s, p).Fork? && At(s, p).node == node
      invariant Before(s, p) == Before(s, path)
      invariant node.left == Top(At(s, p).left)
      decreases At(s, p)
    {
      Down(s, p, false);
      p := p + [false];
      Here(s, p);
      node := node.left;
    }
    Here(s, p);
  }

  /** The highest node of the subtree at a path. */
  method GetMax<V>(start: Node<V>, ghost s: Shape<V>, ghost path: seq<bool>) returns (node: Node<V>)
    requires SearchTree(s) && ValidPath(s, path) && At(s, path).Fork? && At(s, path).node == start
    ensures SearchTree(s)
    ensures var j := Before(s, path) + |InOrder(At(s, path))| - 1; 0 <= j < |InOrder(s)| && node == InOrder(s)[j]
  {
    node := start;
    ghost var p := path;
    ghost var end := Before(s, p) + |InOrder(At(s, p))|;
    Here(s, p);
    while node.right != null
      invariant SearchTree(s) && ValidPath(s, p) && At(s, p).Fork? && At(s, p).node == node
      invariant Before(s, p) + |InOrder(At(s, p))| == end && node.right == Top(At(s, p).right)
      decreases At(s, p)
    {
      Down(s, p, true);
      p := p + [true];
      Here(s, p);
      node := node.right;
    }
    Here(s, p);
  }

  lemma ChildrenDiffer<V>(s: Shape<V>, path: seq<bool>)
    requires SearchTree(s) && ValidPath(s, path) && At(s, path).Fork? && At(s, path).left.Fork?
    requires At(s, path).right.Fork?
    ensures At(s, path).left.node != At(s, path).right.node
  {
    Down(s, path, false);
    Down(s, path, true);
    Here(s, path + [false]);
    Here(s, path + [true]);
    Here(s, path);
  }

  /** The parent's place, and which child a node is. */
  lemma ParentOf<V>(s: Shape<V>, path: seq<bool>)
    requires SearchTree(s) && ValidPath(s, path) && At(s, path).Fork?
    ensures path == [] ==> At(s, path).node.parent == null && Before(s, path) == 0
    ensures path != [] ==>
      var up := path[..|path| - 1];
      && ValidPath(s, up) && At(s, up).Fork? && At(s, path).node.parent == At(s, up).node
      && At(s, path) == (if path[|up|] then At(s, up).right else At(s, up).left)
      && Before(s, path) == Before(s, up) + (if path[|up|] then |InOrder(At(s, up).left)| + 1 else 0)
      && (At(s, up).node.right == At(s, path).node <==> path[|up|])
      && (At(s, up).node.left == At(s, path).node <==> !path[|up|])
  {
    LinkedAt(s, null, path);
    if path != [] {
      var up := path[..|path| - 1];
      Up(s, path);
      Down(s, up, path[|up|]);
      assert up + [path[|up|]] == path;
      Here(s, up);
      if At(s, up).left.Fork? && At(s, up).right.Fork? {
        ChildrenDiffer(s, up);
      }
    }
  }

  /** The node at a position, or null past either end. */
  ghost function Nth<V>(s: Shape<V>, i: int): Node?<V> {
    if 0 <= i < |InOrder(s)| then InOrder(s)[i] else null
  }

  method IterStart<V>(root: Node?<V>, ghost s: Shape<V>) returns (node: Node?<V>)
    requires SearchTree(s) && root == Top(s)
    ensures node == Nth(s, 0) && SearchTree(s)
  {
    node := root;
    if node != null {
      node := GetMin(node, s, []);
    }
  }

  method IterNext<V>(node: Node?<V>, ghost s: Shape<V>, ghost i: nat) returns (next: Node?<V>)
    requires SearchTree(s) && node == Nth(s, i)
    ensures SearchTree(s) && next == if node == null then null else Nth(s, i + 1)
  {
    if node == null {
      return null;
    }
    ghost var path := PathTo(s, i);
    Here(s, path);
    if node.right != null {
      Down(s, path, true);
      next := GetMin(node.right, s, path + [true]);
      return;
    }
    var n: Node<V> := node;
    ParentOf(s, path);
    while n.parent != null && n.parent.right == n
      invariant SearchTree(s) && ValidPath(s, path) && At(s, path).Fork? && At(s, path).node == n
      invariant Before(s, path) + |InOrder(At(s, path))| == i + 1
      decreases |path|
    {
      ParentOf(s, path);
      n := n.parent;
      path := path[..|path| - 1];
    }
    ParentOf(s, path);
    if path != [] {
      Here(s, path[..|path| - 1]);
    }
    next := n.parent;
  }

  /** tree_iter_prev.  It is the previous node exactly if there is no left child: otherwise
      the code descends on the right. */
  method IterPrev<V>(node: Node?<V>, ghost s: Shape<V>, ghost i: nat) returns (prev: Node?<V>)
    requires SearchTree(s) && node == Nth(s, i)
    ensures node == null ==> prev == null
    ensures node != null ==> (prev == Nth(s, i - 1) <==> node.left == null)
  {
    if node == null {
      return null;
    }
    ghost var path := PathTo(s, i);
    Here(s, path);
    if node.left != null {
      if node.right == null {
        return null;
      }
      Down(s, path, true);
      prev := GetMax(node.right, s, path + [true]);
      return;
    }
    var n: Node<V> := node;
    ParentOf(s, path);
    while n.parent != null && n.parent.left == n
      invariant SearchTree(s) && ValidPath(s, path) && At(s, path).Fork? && At(s, path).node == n
      invariant Before(s, path) == i
      decreases |path|
    {
      ParentOf(s, path);
      n := n.parent;
      path := path[..|path| - 1];
    }
    ParentOf(s, path);
    if path != [] {
      Here(s, path[..|path| - 1]);
    }
    prev := n.parent;
  }

  /** Iteration visits every node once, in ascending order of keys. */
  method Walk<V>(root: Node?<V>, ghost s: Shape<V>) returns (visited: seq<Node<V>>)
    requires SearchTree(s) && root == Top(s)
    ensures visited == InOrder(s) && Ascending(visited)
  {
    visited := [];
    var node := IterStart(root, s);
    while node != null
      invariant SearchTree(s) && |visited| <= |InOrder(s)| && visited == InOrder(s)[..|visited|]
      invariant node == Nth(s, |visited|)
      decreases |InOrder(s)| - |visited|
    {
      ghost var i := |visited|;
      visited := visited + [node];
      node := IterNext(node, s, i);
    }
  }

  /** The node with the greatest key that is not above the given one. */
  method GetNodeLe<V>(root: Node?<V>, key: nat, ghost s: Shape<V>) returns (node: Node?<V>)
    requires SearchTree(s) && root == Top(s)
    ensures node == null ==> forall n :: n in InOrder(s) ==> n.key > key
    ensures node != null ==> node in InOrder(s) && node.key <= key && forall n :: n in InOrder(s) && n.key <= key ==>
              n.key <= node.key
  {
    ghost var i;
    node, i := GetCloseNode(root, key, s);
    if node == null {
      return;
    }
    CloseIsLe(InOrder(s), i, key);
    if node.key > key {
      node := IterPrev(node, s, i);
    }
  }

  /** The node where the search ends, or the one before it, has the greatest key not above. */
  lemma CloseIsLe<V>(ns: seq<Node<V>>, i: nat, key: nat)
    requires Ascending(ns) && i < |ns|
    requires ns[i].key <= key ==> forall j :: i < j < |ns| ==> ns[j].key > key
    requires ns[i].key > key ==> forall j :: 0 <= j < i ==> ns[j].key < key
    ensures var k := if ns[i].key <= key then i else i - 1;
      if k < 0 then forall n :: n in ns ==> n.key > key
      else ns[k].key <= key && forall n :: n in ns && n.key <= key ==> n.key <= ns[k].key
  {
  }
}
