/** The binary search tree of the exercise over linked nodes. Every node
    holds a value, a link to its parent and links to its two children; the
    tree holds the root and a count; the iterator holds the next node to
    yield and a count of what is left.

    Each structure carries a ghost `shape` (see module TreeShape) and is
    valid when the fields of its nodes are exactly the links that shape
    prescribes (`Linked`). The methods walk and rewire the nodes like the
    source does and are proved against the pure operations on shapes:
    `InsertShape`, `RemoveShape`, `SearchPath` and `NextPath`. */
module BinaryTree {
  import opened Wrappers
  import opened TreeShape
  import opened TreeRemove

  /** The panic of `next` when `self.len -= 1` leaves `usize`. */
  datatype Panic = LenUnderflow

  /** A node of the tree. The parent link is a weak reference in the source;
      here it is a plain reference. */
  class Node {
    var value: int
    var parent: Node?
    var left: Node?
    var right: Node?

    /** `Node::new`: a node without parent and children. */
    constructor Root(value: int)
      ensures this.value == value && parent == null && left == null && right == null
    {
      this.value := value;
      parent := null;
      left := null;
      right := null;
    }

    /** `Node::with_parent`: a node without children below `parent`. */
    constructor WithParent(value: int, parent: Node)
      ensures this.value == value && this.parent == parent && left == null && right == null
    {
      this.value := value;
      this.parent := parent;
      left := null;
      right := null;
    }
  }

  function Opt(n: Node?): Option<Node>
  {
    if n == null then None else Some(n)
  }

  /** The fields of every node in `m` are the links `m` records for it. */
  ghost predicate Matches(m: map<Node, Links<Node>>)
    reads m.Keys
  {
    forall n :: n in m ==>
      Opt(n.parent) == m[n].parent && Opt(n.left) == m[n].left &&
      Opt(n.right) == m[n].right && n.value == m[n].value
  }

  /** The nodes of `s` are pairwise different and hold the links of `s`,
      the top node having no parent. */
  ghost predicate Linked(s: Shape<Node>)
    reads Nodes(s)
  {
    Distinct(s) && Matches(LinkMap(s, None))
  }

  /** The fields of the node at `p` of a linked shape. */
  lemma FieldsAt(s: Shape<Node>, p: seq<Dir>)
    requires Linked(s) && IsNode(s, p)
    ensures var t := Sub(s, p);
      Opt(t.node.parent) == ParentAt(s, None, p) &&
      Opt(t.node.left) == Top(t.left) && Opt(t.node.right) == Top(t.right) &&
      t.node.value == t.value
  {
    LinkAt(s, None, p);
  }

  /** `Node::is_left_child`: nothing without a parent or when the parent's
      left slot is empty, otherwise whether the parent's left child holds the
      same value as `n`. */
  function IsLeftChild(n: Node): (r: Option<bool>)
    reads n, n.parent, if n.parent != null && n.parent.left != null then {n.parent.left} else {}
    ensures r.Some? <==> n.parent != null && n.parent.left != null
    ensures r == Some(true) ==> n.parent.left.value == n.value
  {
    if n.parent == null || n.parent.left == null then None
    else Some(n.parent.left.value == n.value)
  }

  /** On a linked shape `IsLeftChild` of the node at `p` is `IsLeftChildAt`. */
  lemma IsLeftChildNode(s: Shape<Node>, p: seq<Dir>)
    requires Linked(s) && IsNode(s, p)
    ensures IsLeftChild(Sub(s, p).node) == IsLeftChildAt(s, p)
  {
    FieldsAt(s, p);
    if p != [] {
      var q := p[..|p| - 1];
      Parent(s, p);
      FieldsAt(s, q);
      if Sub(s, q).left.Branch? {
        Step(s, q, Left);
        FieldsAt(s, q + [Left]);
      }
    }
  }

  /** `Node::min_node`: follows left links from the node at `p` down to the
      node without left child. */
  method MinNode(ghost s: Shape<Node>, ghost p: seq<Dir>, start: Node) returns (n: Node)
    requires Linked(s) && IsNode(s, p) && start == Sub(s, p).node
    ensures IsNode(s, p + Leftmost(Sub(s, p)))
    ensures n == Sub(s, p + Leftmost(Sub(s, p))).node
  {
    n := start;
    ghost var l: seq<Dir> := [];
    assert p + l == p;
    while n.left != null
      invariant Linked(s)
      invariant IsNode(s, p + l) && n == Sub(s, p + l).node
      invariant Leftmost(Sub(s, p)) == l + Leftmost(Sub(s, p + l))
      decreases Size(Sub(s, p + l))
    {
      FieldsAt(s, p + l);
      LeftmostMoves(s, p, l);
      n := n.left;
      l := l + [Left];
    }
    FieldsAt(s, p + l);
    LeftmostMoves(s, p, l);
  }

  /** The inner loop of `Tree::remove`: follows right links from the node at
      `p` down to the node without right child. */
  method MaxNode(ghost s: Shape<Node>, ghost p: seq<Dir>, start: Node) returns (n: Node)
    requires Linked(s) && IsNode(s, p) && start == Sub(s, p).node
    ensures IsNode(s, p + Rightmost(Sub(s, p)))
    ensures n == Sub(s, p + Rightmost(Sub(s, p))).node
  {
    n := start;
    ghost var r: seq<Dir> := [];
    assert p + r == p;
    while n.right != null
      invariant Linked(s)
      invariant IsNode(s, p + r) && n == Sub(s, p + r).node
      invariant Rightmost(Sub(s, p)) == r + Rightmost(Sub(s, p + r))
      decreases Size(Sub(s, p + r))
    {
      FieldsAt(s, p + r);
      RightmostMoves(s, p, r);
      n := n.right;
      r := r + [Right];
    }
    FieldsAt(s, p + r);
    RightmostMoves(s, p, r);
  }

  /** The search loop of `contains`, `insert` and `remove`: from the root,
      left for smaller values and right for greater ones, until the node
      holding `x` or an empty slot. */
  method Descend(ghost s: Shape<Node>, root: Node, x: int) returns (c: Node, ghost p: seq<Dir>, found: bool)
    requires Linked(s) && s.Branch? && root == s.node
    ensures IsNode(s, p) && c == Sub(s, p).node
    ensures found <==> IsNode(s, SearchPath(s, x))
    ensures found ==> p == SearchPath(s, x)
    ensures !found ==>
      x != c.value &&
      SearchPath(s, x) == p + [if x < c.value then Left else Right] &&
      !IsNode(s, SearchPath(s, x))
  {
    c := root;
    p := [];
    assert p + SearchPath(s, x) == SearchPath(s, x);
    while true
      invariant Linked(s)
      invariant IsNode(s, p) && c == Sub(s, p).node
      invariant SearchPath(s, x) == p + SearchPath(Sub(s, p), x)
      decreases Size(Sub(s, p))
    {
      FieldsAt(s, p);
      SearchMoves(s, p, x, if x < c.value then Left else Right);
      if x < c.value {
        if c.left == null {
          return c, p, false;
        }
        c, p := c.left, p + [Left];
      } else if x > c.value {
        if c.right == null {
          return c, p, false;
        }
        c, p := c.right, p + [Right];
      } else {
        return c, p, true;
      }
    }
  }

  /** `insert` into the empty tree: a root node for `x`. */
  method Plant(x: int) returns (n: Node)
    ensures fresh(n) && Linked(InsertShape(Leaf, x, n))
    ensures Nodes(InsertShape(Leaf, x, n)) == {n}
    ensures Ordered(InsertShape(Leaf, x, n)) && Elems(InsertShape(Leaf, x, n)) == {x}
    ensures Size(InsertShape(Leaf, x, n)) == 1 && Top(InsertShape(Leaf, x, n)) == Some(n)
  {
    n := new Node.Root(x);
    assert LinkMap(InsertShape(Leaf, x, n), None) == map[n := Links(None, None, None, x)];
  }

  /** The end of `insert`'s search when `x` is absent: a new node for `x`
      below `c`, the node at `p`, hangs in the slot where the search ended.
      `nodes` names the nodes of `s`, which the new node is not one of. */
  method Grow(ghost s: Shape<Node>, ghost nodes: set<Node>, c: Node, ghost p: seq<Dir>, x: int) returns (n: Node)
    requires nodes == Nodes(s) && Linked(s) && IsNode(s, p) && c == Sub(s, p).node && x != c.value
    requires SearchPath(s, x) == p + [if x < c.value then Left else Right] && !IsNode(s, SearchPath(s, x))
    modifies c
    ensures fresh(n) && Linked(InsertShape(s, x, n))
    ensures Nodes(InsertShape(s, x, n)) == Nodes(s) + {n}
    ensures Size(InsertShape(s, x, n)) == Size(s) + 1
    ensures IsNode(InsertShape(s, x, n), SearchPath(s, x)) && Sub(InsertShape(s, x, n), SearchPath(s, x)).node == n
  {
    var isLeft := x < c.value;
    n := new Node.WithParent(x, c);
    InsertLinks(s, None, x, n, p, if isLeft then Left else Right);
    InsertNodes(s, x, n);
    InsertedAt(s, x, n);
    Hang(LinkMap(s, None), c, isLeft, n, x);
  }

  /** The write of `insert`: the new node `n`, already linked to its parent
      `c`, hangs in the left or the right slot of `c`. */
  method Hang(ghost m: map<Node, Links<Node>>, c: Node, isLeft: bool, n: Node, ghost x: int)
    requires Matches(m) && c in m && n !in m
    requires n.parent == c && n.left == null && n.right == null && n.value == x
    modifies c
    ensures Matches(Attach(m, c, if isLeft then Left else Right, n, x))
  {
    SetSlot(c, isLeft, n);
  }

  /** `mem::swap` of the values of `c` and `k` in `remove`: `c` takes the
      value of `k` and `k` the value of `c`, which leaves `k`'s entry out of
      the link map. */
  method SwapValues(ghost m: map<Node, Links<Node>>, c: Node, k: Node)
    requires Matches(m) && c in m && k in m && c != k
    modifies c, k
    ensures Matches(Revalue(m, c, old(k.value)) - {k})
    ensures k.value == old(c.value) && k.parent == old(k.parent) && k.left == old(k.left)
    ensures c.parent == old(c.parent) && c.left == old(c.left) && c.right == old(c.right)
  {
    c.value, k.value := k.value, c.value;
  }

  /** The relinking of `remove`: `k` gives up its left subtree, which hangs
      below `k`'s parent in the slot `is_left_child` picks for `k`. With a
      left sibling of another value, that is the right slot, the one `k`
      held. */
  method Detach(ghost m: map<Node, Links<Node>>, k: Node)
    requires Matches(m) && k !in m && k.parent != null
    requires k.parent in m && m[k.parent].right == Some(k)
    requires m[k.parent].left.Some? && m[k.parent].left.value in m
    requires m[m[k.parent].left.value].value != k.value
    requires k.left != null ==> k.left in m && k.left != k.parent
    modifies k, k.parent, k.left
    ensures Matches(Unlink(m, k, old(k.parent), Opt(old(k.left))))
  {
    var parent := k.parent;
    var l := k.left;
    k.left := null;
    var isLeft := IsLeftChild(k).value;
    SetSlot(parent, isLeft, l);
    if l != null {
      l.parent := parent;
    }
  }

  /** The `Equal` branch of `remove` at the node `c` holding `x`: with a
      right subtree, `c` swaps values with the right-most node of that
      subtree, which is then taken out; without one, `c` itself is taken
      out. The nodes then hold the links of `RemoveShape(s, x)`. */
  method Unhook(ghost s: Shape<Node>, ghost nodes: set<Node>, c: Node, x: int)
    requires nodes == Nodes(s) && Linked(s) && RemoveSafe(s, x)
    requires IsNode(s, SearchPath(s, x)) && c == Sub(s, SearchPath(s, x)).node
    modifies nodes
    ensures Linked(RemoveShape(s, x))
  {
    ghost var m := LinkMap(s, None);
    ghost var c', k, pn, l, m1 := UnhookPlan(s, x);
    var cursor := c;
    if c.right != null {
      cursor := MaxNode(s, SearchPath(s, x) + [Right], c.right);
      SwapValues(m, c, cursor);
    } else {
      MatchesWithout(m, c);
    }
    Detach(m1 - {k}, cursor);
  }

  /** Dropping an entry keeps a link map matching the nodes. */
  lemma MatchesWithout(m: map<Node, Links<Node>>, k: Node)
    requires Matches(m)
    ensures Matches(m - {k})
  {
  }

  /** Hangs `l` in the left or the right slot of `parent`. */
  method SetSlot(parent: Node, isLeft: bool, l: Node?)
    modifies parent
    ensures parent.value == old(parent.value) && parent.parent == old(parent.parent)
    ensures isLeft ==> parent.left == l && parent.right == old(parent.right)
    ensures !isLeft ==> parent.right == l && parent.left == old(parent.left)
  {
    if isLeft {
      parent.left := l;
    } else {
      parent.right := l;
    }
  }

  /** The tree: its root and `len`, which every `insert` raises by one and
      every successful `remove` lowers by one. */
  class Tree {
    var root: Node?
    var len: nat
    ghost var shape: Shape<Node>
    ghost var Repr: set<Node>

    ghost predicate Valid()
      reads this, Repr
    {
      Repr == Nodes(shape) && Linked(shape) && Opt(root) == Top(shape) && len >= Size(shape)
    }

    /** Records the shape the nodes now form. */
    method Reshape(ghost t: Shape<Node>)
      requires Linked(t)
      modifies this
      ensures shape == t && Repr == Nodes(t) && Linked(shape)
      ensures root == old(root) && len == old(len)
    {
      shape, Repr := t, Nodes(t);
    }

    /** `Tree::remove`: when the search finds `x`, the tree becomes
        `RemoveShape` of the old one and `len` drops by one; otherwise
        nothing changes. `RemoveSafe` leaves out the inputs on which the
        source panics, and a right child whose left sibling also holds `x`. */
    method Remove(x: int) returns (removed: bool)
      requires Valid() && RemoveSafe(shape, x)
      modifies this, Repr
      ensures Valid() && Repr <= old(Repr)
      ensures removed <==> IsNode(old(shape), SearchPath(old(shape), x))
      ensures shape == RemoveShape(old(shape), x)
      ensures removed ==> Size(shape) == old(Size(shape)) - 1
      ensures len == if removed then old(len) - 1 else old(len)
      ensures Ordered(old(shape)) ==> Elems(shape) == old(Elems(shape)) - {x}
    {
      ghost var s := shape;
      RemoveContents(s, x);
      if root == null {
        return false;
      }
      var c: Node;
      ghost var p: seq<Dir>;
      var found: bool;
      c, p, found := Descend(shape, root, x);
      if !found {
        RemoveAbsent(s, x);
        return false;
      }
      Excise(c, x);
      return true;
    }

    /** The `Equal` branch of `Tree::remove` once the search stopped at `c`,
        the node holding `x`, followed by the decrement of `len`. */
    method Excise(c: Node, x: int)
      requires Valid() && RemoveSafe(shape, x)
      requires IsNode(shape, SearchPath(shape, x)) && c == Sub(shape, SearchPath(shape, x)).node
      modifies this, Repr
      ensures Valid() && Repr <= old(Repr) && shape == RemoveShape(old(shape), x)
      ensures Size(shape) == old(Size(shape)) - 1 && len == old(len) - 1
    {
      ghost var s := shape;
      RemoveFound(s, x);
      Unhook(s, Repr, c, x);
      len := len - 1;
      Reshape(RemoveShape(s, x));
    }

    /** `Tree::new`: the empty tree. */
    constructor()
      ensures Valid() && shape == Leaf && len == 0
    {
      root := null;
      len := 0;
      shape := Leaf;
      Repr := {};
    }

    /** `Tree::len`: at least the number of nodes. */
    function Len(): (n: nat)
      reads this, Repr
      ensures Valid() ==> n >= Size(shape)
    {
      len
    }

    /** `Tree::contains`: whether the search for `x` ends at a node; in an
        ordered tree, whether `x` is one of the tree's values. */
    method Contains(x: int) returns (b: bool)
      requires Valid()
      ensures b <==> IsNode(shape, SearchPath(shape, x))
      ensures Ordered(shape) ==> (b <==> x in Elems(shape))
    {
      if Ordered(shape) {
        SearchFinds(shape, x);
      }
      if root == null {
        return false;
      }
      var c: Node;
      ghost var p: seq<Dir>;
      c, p, b := Descend(shape, root, x);
    }

    /** `Tree::insert`: a new node for `x` hangs where the search ends,
        unless the search finds `x`. */
    method Insert(x: int) returns (added: bool)
      requires Valid()
      modifies this, Repr
      ensures Valid() && fresh(Repr - old(Repr)) && len == old(len) + 1
      ensures added <==> !IsNode(old(shape), SearchPath(old(shape), x))
      ensures !added ==> shape == old(shape) && Repr == old(Repr)
      ensures added ==>
        IsNode(shape, SearchPath(old(shape), x)) &&
        var n := Sub(shape, SearchPath(old(shape), x)).node;
        fresh(n) && shape == InsertShape(old(shape), x, n) && Repr == old(Repr) + {n} &&
        Size(shape) == old(Size(shape)) + 1
      ensures Ordered(old(shape)) ==> Ordered(shape) && Elems(shape) == old(Elems(shape)) + {x}
    {
      len := len + 1;
      ghost var s := shape;
      if root == null {
        var n := Plant(x);
        root := n;
        Reshape(InsertShape(s, x, n));
        return true;
      }
      var c: Node;
      ghost var p: seq<Dir>;
      var found: bool;
      c, p, found := Descend(shape, root, x);
      if found {
        InsertPresent(s, x, c);
        InsertOrdered(s, x, c);
        return false;
      }
      ghost var n := Sprout(c, p, x);
      InsertOrdered(s, x, n);
      return true;
    }

    /** The `None` slot case of `Tree::insert`: the search for `x` ended
        below `c`, at `p`, and a new node `n` for `x` hangs there. */
    method Sprout(c: Node, ghost p: seq<Dir>, x: int) returns (ghost n: Node)
      requires Valid() && len > Size(shape) && IsNode(shape, p) && c == Sub(shape, p).node && x != c.value
      requires SearchPath(shape, x) == p + [if x < c.value then Left else Right]
      requires !IsNode(shape, SearchPath(shape, x))
      modifies this, Repr
      ensures Valid() && len == old(len) && fresh(n)
      ensures IsNode(shape, SearchPath(old(shape), x)) && n == Sub(shape, SearchPath(old(shape), x)).node
      ensures shape == InsertShape(old(shape), x, n) && Repr == old(Repr) + {n}
      ensures Size(shape) == old(Size(shape)) + 1
    {
      ghost var s := shape;
      SubInside(s, p);
      var m := Grow(s, Repr, c, p, x);
      Reshape(InsertShape(s, x, m));
      n := m;
    }

    /** `Tree::iter`: an iterator that starts at the left-most node and
        counts down from the tree's `len`. */
    method Iter() returns (it: Iter)
      requires Valid()
      ensures fresh(it) && it.Valid()
      ensures it.shape == shape && it.Repr == Repr && it.len == len
      ensures it.node == null <==> shape.Leaf?
      ensures it.node != null ==> it.path == Leftmost(shape) && Index(shape, it.path) == 0
    {
      var node: Node? := null;
      ghost var path: seq<Dir> := [];
      if root != null {
        assert [] + Leftmost(Sub(shape, [])) == Leftmost(shape);
        node := MinNode(shape, [], root);
        path := Leftmost(shape);
      }
      it := new Iter(node, len, shape, path, Repr);
    }
  }

  /** The climb of `Iter::next` from the node at `p`, which has no right
      child: up while `is_left_child` says `Some(false)`, then to the parent
      when it says `Some(true)`; otherwise the walk is over. */
  method ClimbFrom(ghost s: Shape<Node>, ghost p: seq<Dir>, start: Node) returns (n: Node?, ghost q: seq<Dir>)
    requires Linked(s) && IsNode(s, p) && start == Sub(s, p).node
    ensures n != null <==> Climb(s, p).Some?
    ensures n != null ==> q == Climb(s, p).value && IsNode(s, q) && n == Sub(s, q).node
  {
    var cursor := start;
    ghost var c := p;
    IsLeftChildNode(s, c);
    while IsLeftChild(cursor) == Some(false)
      invariant Linked(s) && IsNode(s, c) && cursor == Sub(s, c).node
      invariant IsLeftChild(cursor) == IsLeftChildAt(s, c)
      invariant Climb(s, c) == Climb(s, p)
      decreases |c|
    {
      FieldsAt(s, c);
      Parent(s, c);
      cursor := cursor.parent;
      c := c[..|c| - 1];
      IsLeftChildNode(s, c);
    }
    if IsLeftChild(cursor) == Some(true) {
      FieldsAt(s, c);
      Parent(s, c);
      n, q := cursor.parent, c[..|c| - 1];
    } else {
      n, q := null, c;
    }
  }

  /** The move of `Iter::next` from the node at `p`: to the left-most node
      of its right subtree, or else along the climb. */
  method Advance(ghost s: Shape<Node>, ghost p: seq<Dir>, cursor: Node) returns (n: Node?, ghost q: seq<Dir>)
    requires Linked(s) && IsNode(s, p) && cursor == Sub(s, p).node
    ensures n != null <==> NextPath(s, p).Some?
    ensures n != null ==> q == NextPath(s, p).value && IsNode(s, q) && n == Sub(s, q).node
  {
    FieldsAt(s, p);
    if cursor.right != null {
      Step(s, p, Right);
      n := MinNode(s, p + [Right], cursor.right);
      q := p + [Right] + Leftmost(Sub(s, p + [Right]));
    } else {
      n, q := ClimbFrom(s, p, cursor);
    }
  }

  /** The iterator of the tree: the node to yield next and a count of what
      is left, which `next` decrements. */
  class Iter {
    var node: Node?
    var len: nat
    ghost var shape: Shape<Node>
    ghost var path: seq<Dir>
    ghost var Repr: set<Node>

    /** The iterator walks the nodes of a linked shape, `node` sits at
        `path`, and on an ordered tree the count covers the nodes still
        ahead. */
    ghost predicate Valid()
      reads this, Repr
    {
      Repr == Nodes(shape) && Linked(shape) &&
      (node != null ==> IsNode(shape, path) && node == Sub(shape, path).node) &&
      (node != null && Ordered(shape) ==> len + Index(shape, path) >= Size(shape))
    }

    /** How many values of the in-order walk lie behind the iterator: the
        rank of `node`, or all of them once the walk is over. */
    ghost function Pos(): (i: nat)
      reads this, Repr
      requires Valid()
      ensures i <= Size(shape)
      ensures node != null ==> i == Index(shape, path) && i < Size(shape)
      ensures node == null ==> i == Size(shape)
    {
      if node != null then IndexValue(shape, path); Index(shape, path) else Size(shape)
    }

    constructor(node: Node?, len: nat, ghost shape: Shape<Node>, ghost path: seq<Dir>, ghost Repr: set<Node>)
      ensures this.node == node && this.len == len && this.shape == shape
      ensures this.path == path && this.Repr == Repr
    {
      this.node, this.len, this.shape, this.path, this.Repr := node, len, shape, path, Repr;
    }

    /** `Iterator::next`: yields the value at `node` and moves to the next
        node along `NextPath`; on an ordered tree that is the next value in
        order, and on a tree the walk covers completely it stops after the
        last one. A node left with the count at zero is the underflow panic
        of `self.len -= 1`; on an ordered tree the count never runs out. */
    method Next() returns (r: Result<Option<int>, Panic>)
      requires Valid()
      modifies this
      ensures Valid() && shape == old(shape) && Repr == old(Repr)
      ensures r.Failure? <==> old(node) != null && old(len) == 0
      ensures r.Failure? ==> r.error == LenUnderflow
      ensures old(node) != null && Ordered(shape) ==> r.Success?
      ensures old(node) == null ==> r == Success(None) && node == null && len == old(len)
      ensures old(node) != null && r.Success? ==>
        Index(shape, old(path)) < Size(shape) &&
        r.value == Some(InOrder(shape)[Index(shape, old(path))]) && len == old(len) - 1 &&
        (node != null <==> NextPath(shape, old(path)).Some?) &&
        (node != null ==> path == NextPath(shape, old(path)).value)
      ensures old(node) != null && node != null && Ordered(shape) ==>
        Index(shape, path) == Index(shape, old(path)) + 1
      ensures old(node) != null && node == null && Ordered(shape) && Fine(shape, true) ==>
        Index(shape, old(path)) == Size(shape) - 1
      ensures old(node) != null && Ordered(shape) && Fine(shape, true) ==> Pos() == old(Pos()) + 1
    {
      if node == null {
        return Success(None);
      }
      if len == 0 {
        IndexValue(shape, path);
        return Failure(LenUnderflow);
      }
      ghost var p := path;
      FieldsAt(shape, p);
      NextFacts(shape, p);
      r := Success(Some(node.value));
      var n: Node?;
      ghost var q: seq<Dir>;
      n, q := Advance(shape, p, node);
      MoveTo(n, q, len - 1);
    }

    /** The field updates of `next`: the count goes down and `node` moves
        to the node at `q`. */
    method MoveTo(n: Node?, ghost q: seq<Dir>, count: nat)
      requires Repr == Nodes(shape) && Linked(shape)
      requires n != null ==> IsNode(shape, q) && n == Sub(shape, q).node
      requires n != null && Ordered(shape) ==> count + Index(shape, q) >= Size(shape)
      modifies this
      ensures Valid() && node == n && path == q && len == count
      ensures shape == old(shape) && Repr == old(Repr)
    {
      node, path, len := n, q, count;
    }

    /** `Iterator::size_hint`: the count, as both bounds; on an ordered tree
        no smaller than the number of nodes still ahead. */
    function SizeHint(): (h: (nat, Option<nat>))
      reads this, Repr
      ensures h.1 == Some(h.0)
      ensures Valid() && node != null && Ordered(shape) ==> h.0 >= Size(shape) - Index(shape, path)
    {
      (len, Some(len))
    }
  }

  /** What the tests do with an iterator: collect everything it yields. On
      an ordered tree the walk covers completely, that is every value from
      the iterator's position on, in order. */
  method Collect(it: Iter) returns (vs: seq<int>)
    requires it.Valid() && Ordered(it.shape) && Fine(it.shape, true)
    modifies it
    ensures it.Valid() && it.node == null && it.shape == old(it.shape)
    ensures vs == InOrder(it.shape)[old(it.Pos())..]
    decreases Size(it.shape) - it.Pos()
  {
    if it.node == null {
      return [];
    }
    ghost var i := it.Pos();
    var r := it.Next();
    var rest := Collect(it);
    vs := [r.value.value] + rest;
    ConsSlice(InOrder(it.shape), i);
  }

  /** The exercise's `insert_test`: inserting 1, 5, 3 and 7 into a new
      tree and collecting its iterator yields 1, 3, 5, 7. */
  method InsertTest() returns (vs: seq<int>)
    ensures vs == [1, 3, 5, 7]
  {
    var t: Tree;
    ghost var ns: seq<Node>;
    t, ns := Planted([1, 5, 3, 7]);
    assert ns == [ns[0], ns[1], ns[2], ns[3]];
    TestInserts(ns[0], ns[1], ns[2], ns[3]);
    TestTree(ns[0], ns[1], ns[2], ns[3]);
    var it := t.Iter();
    vs := Collect(it);
  }

  /** The exercise's `remove_test`: removing 7 from that tree leaves 1, 3, 5. */
  method RemoveTest() returns (vs: seq<int>)
    ensures vs == [1, 3, 5]
  {
    var t: Tree;
    ghost var ns: seq<Node>;
    t, ns := Planted([1, 5, 3, 7]);
    assert ns == [ns[0], ns[1], ns[2], ns[3]];
    TestInserts(ns[0], ns[1], ns[2], ns[3]);
    TestTree(ns[0], ns[1], ns[2], ns[3]);
    TestRemove(ns[0], ns[1], ns[2], ns[3]);
    var removed := t.Remove(7);
    var it := t.Iter();
    vs := Collect(it);
  }

  /** A new tree after inserting the distinct values `xs` one after the
      other, as the exercise's tests do: `Inserts` over new nodes `ns`. */
  method Planted(xs: seq<int>) returns (t: Tree, ghost ns: seq<Node>)
    requires forall i, j :: 0 <= i < j < |xs| ==> xs[i] != xs[j]
    ensures fresh(t) && fresh(t.Repr)
    ensures t.Valid() && t.len == |xs| && |ns| == |xs| && t.shape == Inserts(xs, ns)
  {
    t := new Tree();
    ns := [];
    var i := 0;
    while i < |xs|
      invariant i <= |xs| && |ns| == i
      invariant fresh(t) && fresh(t.Repr) && t.Valid() && t.len == i
      invariant Ordered(t.shape) && forall j :: i <= j < |xs| ==> xs[j] !in Elems(t.shape)
      invariant t.shape == Inserts(xs[..i], ns)
    {
      ns := PlantNext(t, xs, i, ns);
      assert fresh(t.Repr);
      i := i + 1;
    }
    assert xs[..i] == xs;
  }

  /** One round of `Planted`: inserting `xs[i]`. */
  method PlantNext(t: Tree, xs: seq<int>, i: nat, ghost ns: seq<Node>) returns (ghost ns': seq<Node>)
    requires forall i, j :: 0 <= i < j < |xs| ==> xs[i] != xs[j]
    requires i < |xs| && |ns| == i && t.Valid() && Ordered(t.shape) && t.shape == Inserts(xs[..i], ns)
    requires forall j :: i <= j < |xs| ==> xs[j] !in Elems(t.shape)
    modifies t, t.Repr
    ensures fresh(t.Repr - old(t.Repr)) && t.Valid() && t.len == old(t.len) + 1
    ensures |ns'| == i + 1 && Ordered(t.shape) && t.shape == Inserts(xs[..i + 1], ns')
    ensures forall j :: i < j < |xs| ==> xs[j] !in Elems(t.shape)
  {
    assert xs[..i + 1] == xs[..i] + [xs[i]];
    var n := InsertNew(t, xs[i]);
    InsertsSnoc(xs[..i], ns, xs[i], n);
    ns' := ns + [n];
  }

  /** `insert` of a value absent from an ordered tree, as in the tests: it
      hangs in a new node `n`. */
  method InsertNew(t: Tree, x: int) returns (ghost n: Node)
    requires t.Valid() && Ordered(t.shape) && x !in Elems(t.shape)
    modifies t, t.Repr
    ensures t.Valid() && t.len == old(t.len) + 1 && fresh(t.Repr - old(t.Repr))
    ensures t.shape == InsertShape(old(t.shape), x, n)
    ensures Ordered(t.shape) && Elems(t.shape) == old(Elems(t.shape)) + {x}
  {
    SearchFinds(t.shape, x);
    var added := t.Insert(x);
    n := Sub(t.shape, SearchPath(old(t.shape), x)).node;
  }

  /** A slice is its first element followed by the rest. */
  lemma ConsSlice(t: seq<int>, a: nat)
    requires a < |t|
    ensures t[a..] == [t[a]] + t[a + 1..]
  {
  }
}
