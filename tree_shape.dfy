/** The shape of the binary search tree of the binary-tree exercise, as a
    value: every branch carries the node object that holds it (any type `N`
    here) and that node's value. Paths of `Left`/`Right` steps name positions;
    the functions below are the pure counterparts of the cursor loops of
    `contains`, `insert`, `remove`, `min_node` and the iterator. */
module TreeShape {
  import opened Wrappers

  datatype Dir = Left | Right

  datatype Shape<N> = Leaf | Branch(node: N, value: int, left: Shape<N>, right: Shape<N>)

  /** What the fields of one node must hold: its parent, its children and its
      value. */
  datatype Links<N> = Links(parent: Option<N>, left: Option<N>, right: Option<N>, value: int)

  function Child<N>(s: Shape<N>, d: Dir): Shape<N>
    requires s.Branch?
  {
    if d == Left then s.left else s.right
  }

  /** The subtree at path `p`; a path that leaves the tree ends in a `Leaf`. */
  function Sub<N>(s: Shape<N>, p: seq<Dir>): Shape<N>
    decreases |p|
  {
    if p == [] then s
    else if s.Leaf? then Leaf
    else Sub(Child(s, p[0]), p[1..])
  }

  predicate IsNode<N>(s: Shape<N>, p: seq<Dir>)
  {
    Sub(s, p).Branch?
  }

  /** The node at the top of a subtree, as the `Option<Rc<..>>` of a child slot. */
  function Top<N>(s: Shape<N>): Option<N>
  {
    if s.Leaf? then None else Some(s.node)
  }

  function Nodes<N(==)>(s: Shape<N>): set<N>
  {
    if s.Leaf? then {} else {s.node} + Nodes(s.left) + Nodes(s.right)
  }

  /** No node object occurs twice. */
  predicate Distinct<N(==)>(s: Shape<N>)
  {
    s.Leaf? ||
    (s.node !in Nodes(s.left) && s.node !in Nodes(s.right) && Nodes(s.left) !! Nodes(s.right) &&
     Distinct(s.left) && Distinct(s.right))
  }

  function Size<N>(s: Shape<N>): nat
  {
    if s.Leaf? then 0 else Size(s.left) + 1 + Size(s.right)
  }

  function Elems<N>(s: Shape<N>): set<int>
  {
    if s.Leaf? then {} else Elems(s.left) + {s.value} + Elems(s.right)
  }

  /** The search-tree order: smaller values to the left, greater to the right. */
  predicate Ordered<N>(s: Shape<N>)
  {
    s.Leaf? ||
    ((forall x :: x in Elems(s.left) ==> x < s.value) &&
     (forall x :: x in Elems(s.right) ==> s.value < x) &&
     Ordered(s.left) && Ordered(s.right))
  }

  function InOrder<N>(s: Shape<N>): (r: seq<int>)
    ensures |r| == Size(s)
  {
    if s.Leaf? then [] else InOrder(s.left) + [s.value] + InOrder(s.right)
  }

  /** How many values come in order before the subtree at `p`. */
  function Before<N>(s: Shape<N>, p: seq<Dir>): nat
    decreases |p|
  {
    if p == [] || s.Leaf? then 0
    else if p[0] == Left then Before(s.left, p[1..])
    else Size(s.left) + 1 + Before(s.right, p[1..])
  }

  /** The in-order rank of the node at `p`. */
  function Index<N>(s: Shape<N>, p: seq<Dir>): nat
    requires IsNode(s, p)
  {
    Before(s, p) + Size(Sub(s, p).left)
  }

  /** The in-order rank of the last value of the subtree at `p`. */
  function Last<N>(s: Shape<N>, p: seq<Dir>): nat
    requires IsNode(s, p)
  {
    Before(s, p) + Size(Sub(s, p)) - 1
  }

  /** The path `min_node` follows: left links until there is none. */
  function Leftmost<N>(s: Shape<N>): (p: seq<Dir>)
    requires s.Branch?
    ensures IsNode(s, p) && Sub(s, p).left.Leaf? && Before(s, p) == 0
    ensures forall i :: 0 <= i < |p| ==> p[i] == Left
  {
    if s.left.Leaf? then [] else [Left] + Leftmost(s.left)
  }

  /** The path the search of `contains`, `insert` and `remove` follows for
      `x`: it ends at the node holding `x` or at the empty slot where `x`
      would hang. */
  function SearchPath<N>(s: Shape<N>, x: int): seq<Dir>
  {
    if s.Leaf? then []
    else if x < s.value then [Left] + SearchPath(s.left, x)
    else if x > s.value then [Right] + SearchPath(s.right, x)
    else []
  }

  /** `insert` on shapes: `x` hangs as a new leaf held by `n` in the slot
      where the search ends, unless `x` is already there. */
  function InsertShape<N>(s: Shape<N>, x: int, n: N): Shape<N>
  {
    if s.Leaf? then Branch(n, x, Leaf, Leaf)
    else if x < s.value then Branch(s.node, s.value, InsertShape(s.left, x, n), s.right)
    else if x > s.value then Branch(s.node, s.value, s.left, InsertShape(s.right, x, n))
    else s
  }

  /** Inserting the values `xs` one after the other into an empty tree, the
      `i`-th of them into the node `ns[i]`. */
  function Inserts<N>(xs: seq<int>, ns: seq<N>): (s: Shape<N>)
    requires |xs| == |ns|
    ensures |xs| > 0 ==> s.Branch? && s.value == xs[0] && s.node == ns[0]
  {
    if xs == [] then Leaf
    else InsertShape(Inserts(xs[..|xs| - 1], ns[..|ns| - 1]), xs[|xs| - 1], ns[|ns| - 1])
  }

  /** `Inserts` adds its last value last. */
  lemma InsertsSnoc<N>(xs: seq<int>, ns: seq<N>, x: int, n: N)
    requires |xs| == |ns|
    ensures Inserts(xs + [x], ns + [n]) == InsertShape(Inserts(xs, ns), x, n)
  {
    assert (xs + [x])[..|xs|] == xs && (ns + [n])[..|ns|] == ns;
  }

  /** The fields every node of `s` must hold, `par` being the parent of its
      top node. */
  function LinkMap<N(==)>(s: Shape<N>, par: Option<N>): (m: map<N, Links<N>>)
    ensures m.Keys == Nodes(s)
  {
    if s.Leaf? then map[]
    else (LinkMap(s.left, Some(s.node)) + LinkMap(s.right, Some(s.node)) +
      map[s.node := Links(par, Top(s.left), Top(s.right), s.value)])
  }

  /** The parent of the node at `p`. */
  function ParentAt<N>(s: Shape<N>, par: Option<N>, p: seq<Dir>): Option<N>
  {
    if p == [] then par else Top(Sub(s, p[..|p| - 1]))
  }

  /** `is_left_child` at `p`: nothing at the root or when the parent's left
      slot is empty; otherwise whether the parent's left child holds the same
      value. */
  function IsLeftChildAt<N>(s: Shape<N>, p: seq<Dir>): Option<bool>
    requires IsNode(s, p)
  {
    if p == [] then None
    else (
      var par := Sub(s, p[..|p| - 1]);
      if par.Leaf? || par.left.Leaf? then None else Some(par.left.value == Sub(s, p).value))
  }

  /** The climb of `Iter::next` from a node without right child: up while
      `is_left_child` says `Some(false)`, then to the parent if it says
      `Some(true)`, otherwise the end. */
  function Climb<N>(s: Shape<N>, p: seq<Dir>): Option<seq<Dir>>
    requires IsNode(s, p)
    decreases |p|
  {
    var l := IsLeftChildAt(s, p);
    if l == Some(false) then Climb(s, p[..|p| - 1])
    else if l == Some(true) then Some(p[..|p| - 1])
    else None
  }

  /** `Iter::next` on paths: the leftmost node of the right subtree, else the
      climb. */
  function NextPath<N>(s: Shape<N>, p: seq<Dir>): Option<seq<Dir>>
    requires IsNode(s, p)
  {
    if Sub(s, p).right.Branch? then Some(p + [Right] + Leftmost(Sub(s, p).right)) else Climb(s, p)
  }

  /** Trees the iterator walks completely: off the rightmost spine (`spine`
      false), a node with an empty left slot has an empty right slot too. */
  predicate Fine<N>(s: Shape<N>, spine: bool)
  {
    s.Leaf? ||
    (Fine(s.left, false) && Fine(s.right, spine) && (spine || s.left.Branch? || s.right.Leaf?))
  }

  predicate AllRight(p: seq<Dir>)
  {
    forall i :: 0 <= i < |p| ==> p[i] == Right
  }

  // ---------------------------------------------------------------- paths

  lemma {:induction false} SubConcat<N>(s: Shape<N>, p: seq<Dir>, t: seq<Dir>)
    ensures Sub(s, p + t) == Sub(Sub(s, p), t)
    decreases |p|
  {
    if p == [] {
      assert p + t == t;
    } else if s.Leaf? {
      assert Sub(s, p) == Leaf;
      SubOfLeaf<N>(p + t);
      SubOfLeaf<N>(t);
    } else {
      assert (p + t)[0] == p[0] && (p + t)[1..] == p[1..] + t;
      SubConcat(Child(s, p[0]), p[1..], t);
    }
  }

  lemma SubOfLeaf<N>(p: seq<Dir>)
    ensures Sub<N>(Leaf, p) == Leaf
  {
  }

  /** One step down from a node. */
  lemma Step<N>(s: Shape<N>, p: seq<Dir>, d: Dir)
    requires IsNode(s, p)
    ensures Sub(s, p + [d]) == Child(Sub(s, p), d)
  {
    SubConcat(s, p, [d]);
  }

  /** The parent of a node at a non-empty path is a node. */
  lemma Parent<N>(s: Shape<N>, p: seq<Dir>)
    requires IsNode(s, p) && p != []
    ensures IsNode(s, p[..|p| - 1])
    ensures Sub(s, p) == Child(Sub(s, p[..|p| - 1]), p[|p| - 1])
  {
    var q := p[..|p| - 1];
    assert p == q + [p[|p| - 1]];
    SubConcat(s, q, [p[|p| - 1]]);
  }

  lemma {:induction false} SubInside<N>(s: Shape<N>, p: seq<Dir>)
    ensures Nodes(Sub(s, p)) <= Nodes(s) && Elems(Sub(s, p)) <= Elems(s)
    ensures Distinct(s) ==> Distinct(Sub(s, p))
    ensures Ordered(s) ==> Ordered(Sub(s, p))
    decreases |p|
  {
    if p != [] && s.Branch? {
      SubInside(Child(s, p[0]), p[1..]);
    }
  }

  /** In a tree without repeated nodes, a node differs from every node below it. */
  lemma DistinctBelow<N>(s: Shape<N>, p: seq<Dir>, t: seq<Dir>)
    requires Distinct(s) && IsNode(s, p + t) && t != []
    ensures IsNode(s, p) && Sub(s, p).node != Sub(s, p + t).node
  {
    SubConcat(s, p, t);
    if Sub(s, p).Leaf? {
      SubOfLeaf<N>(t);
    }
    var u := Sub(s, p);
    SubInside(s, p);
    SubInside(Child(u, t[0]), t[1..]);
  }

  /** The two children of a node are different nodes. */
  lemma SiblingsDistinct<N>(s: Shape<N>, p: seq<Dir>)
    requires Distinct(s) && IsNode(s, p + [Left]) && IsNode(s, p + [Right])
    ensures Sub(s, p + [Left]).node != Sub(s, p + [Right]).node
  {
    SubConcat(s, p, [Left]);
    SubConcat(s, p, [Right]);
    if Sub(s, p).Leaf? {
      SubOfLeaf<N>([Left]);
    }
    SubInside(s, p);
  }

  lemma {:induction false} BeforeConcat<N>(s: Shape<N>, p: seq<Dir>, t: seq<Dir>)
    requires IsNode(s, p)
    ensures Before(s, p + t) == Before(s, p) + Before(Sub(s, p), t)
    decreases |p|
  {
    if p == [] {
      assert p + t == t;
    } else {
      assert (p + t)[0] == p[0] && (p + t)[1..] == p[1..] + t;
      BeforeConcat(Child(s, p[0]), p[1..], t);
    }
  }

  /** The value at `p` sits at position `Index(s, p)` of the in-order sequence. */
  lemma {:induction false} IndexValue<N>(s: Shape<N>, p: seq<Dir>)
    requires IsNode(s, p)
    ensures Index(s, p) < Size(s) && InOrder(s)[Index(s, p)] == Sub(s, p).value
    ensures Last(s, p) < Size(s)
    decreases |p|
  {
    if p != [] {
      IndexValue(Child(s, p[0]), p[1..]);
    }
  }

  // ---------------------------------------------------------------- search

  /** The search path ends at `x` exactly when `x` is in an ordered tree. */
  lemma {:induction false} SearchFinds<N>(s: Shape<N>, x: int)
    requires Ordered(s)
    ensures x in Elems(s) <==> IsNode(s, SearchPath(s, x))
    ensures IsNode(s, SearchPath(s, x)) ==> Sub(s, SearchPath(s, x)).value == x
  {
    if s.Branch? {
      if x < s.value {
        SearchFinds(s.left, x);
      } else if x > s.value {
        SearchFinds(s.right, x);
      }
    }
  }

  /** One step of the search loop, from the node at `p` to its child `d`. */
  lemma SearchStep<N>(s: Shape<N>, p: seq<Dir>, x: int, d: Dir)
    requires IsNode(s, p) && x != Sub(s, p).value
    requires d == if x < Sub(s, p).value then Left else Right
    ensures Sub(s, p + [d]) == Child(Sub(s, p), d)
    ensures SearchPath(Sub(s, p), x) == [d] + SearchPath(Sub(s, p + [d]), x)
    ensures Size(Sub(s, p + [d])) < Size(Sub(s, p))
  {
    Step(s, p, d);
  }

  /** One step of `min_node` from the node at `p + l`, having taken the
      left steps `l` below `p`. */
  lemma LeftmostMoves<N>(s: Shape<N>, p: seq<Dir>, l: seq<Dir>)
    requires IsNode(s, p) && IsNode(s, p + l) && Leftmost(Sub(s, p)) == l + Leftmost(Sub(s, p + l))
    ensures Sub(s, p + l).left.Leaf? ==> Leftmost(Sub(s, p)) == l
    ensures Sub(s, p + l).left.Branch? ==>
      IsNode(s, p + (l + [Left])) && Sub(s, p + (l + [Left])) == Sub(s, p + l).left &&
      Leftmost(Sub(s, p)) == (l + [Left]) + Leftmost(Sub(s, p + (l + [Left]))) &&
      Size(Sub(s, p + (l + [Left]))) < Size(Sub(s, p + l))
  {
    Step(s, p + l, Left);
    assert p + l + [Left] == p + (l + [Left]);
    assert l + [] == l;
  }

  /** The search, having followed `p`, stops at or descends from the node
      at `p`; `d` is the slot it looks into next. */
  lemma SearchMoves<N>(s: Shape<N>, p: seq<Dir>, x: int, d: Dir)
    requires IsNode(s, p) && SearchPath(s, x) == p + SearchPath(Sub(s, p), x)
    requires d == if x < Sub(s, p).value then Left else Right
    ensures x == Sub(s, p).value ==> SearchPath(s, x) == p
    ensures x != Sub(s, p).value && Child(Sub(s, p), d).Leaf? ==>
      SearchPath(s, x) == p + [d] && !IsNode(s, SearchPath(s, x))
    ensures x != Sub(s, p).value && Child(Sub(s, p), d).Branch? ==>
      IsNode(s, p + [d]) && Sub(s, p + [d]) == Child(Sub(s, p), d) &&
      SearchPath(s, x) == p + [d] + SearchPath(Sub(s, p + [d]), x) &&
      Size(Sub(s, p + [d])) < Size(Sub(s, p))
  {
    Step(s, p, d);
    if x == Sub(s, p).value {
      assert p + [] == p;
    } else {
      assert p + ([d] + SearchPath(Sub(s, p + [d]), x)) == p + [d] + SearchPath(Sub(s, p + [d]), x);
      if Child(Sub(s, p), d).Leaf? {
        assert p + [d] + [] == p + [d];
      }
    }
  }

  // ---------------------------------------------------------------- insert

  /** Insertion adds `x` to the values, keeps the order and grows the tree by
      one node exactly when `x` was absent; a present `x` changes nothing. */
  lemma {:induction false} InsertContents<N>(s: Shape<N>, x: int, n: N)
    requires Ordered(s)
    ensures Elems(InsertShape(s, x, n)) == Elems(s) + {x}
    ensures Ordered(InsertShape(s, x, n))
    ensures Size(InsertShape(s, x, n)) == if x in Elems(s) then Size(s) else Size(s) + 1
    ensures x in Elems(s) ==> InsertShape(s, x, n) == s
  {
    if s.Branch? {
      if x < s.value {
        InsertContents(s.left, x, n);
      } else if x > s.value {
        InsertContents(s.right, x, n);
      }
    }
  }

  /** The new node is the one node insertion adds. */
  lemma {:induction false} InsertNodes<N>(s: Shape<N>, x: int, n: N)
    requires Distinct(s) && n !in Nodes(s) && !IsNode(s, SearchPath(s, x))
    ensures Nodes(InsertShape(s, x, n)) == Nodes(s) + {n}
    ensures Distinct(InsertShape(s, x, n))
    ensures Size(InsertShape(s, x, n)) == Size(s) + 1
  {
    if s.Branch? {
      if x < s.value {
        InsertNodes(s.left, x, n);
      } else {
        InsertNodes(s.right, x, n);
      }
    }
  }

  /** `InsertContents` for any tree: on an ordered one insertion keeps the
      order and adds `x`. */
  lemma InsertOrdered<N>(s: Shape<N>, x: int, n: N)
    ensures Ordered(s) ==> Ordered(InsertShape(s, x, n)) && Elems(InsertShape(s, x, n)) == Elems(s) + {x}
  {
    if Ordered(s) {
      InsertContents(s, x, n);
    }
  }

  /** When the search finds `x`, insertion changes nothing, ordered tree or
      not. */
  lemma {:induction false} InsertPresent<N>(s: Shape<N>, x: int, n: N)
    requires IsNode(s, SearchPath(s, x))
    ensures InsertShape(s, x, n) == s
  {
    if s.Branch? && x != s.value {
      InsertPresent(Child(s, if x < s.value then Left else Right), x, n);
    }
  }

  /** The new node sits where the search for `x` ended. */
  lemma {:induction false} InsertedAt<N>(s: Shape<N>, x: int, n: N)
    requires !IsNode(s, SearchPath(s, x))
    ensures IsNode(InsertShape(s, x, n), SearchPath(s, x))
    ensures Sub(InsertShape(s, x, n), SearchPath(s, x)).node == n
  {
    if s.Branch? {
      if x < s.value {
        InsertedAt(s.left, x, n);
      } else {
        InsertedAt(s.right, x, n);
      }
    }
  }

  /** The fields `insert` writes: the node where the search ends gets the new
      node in slot `d`, and the new node gets that node as parent and no
      children; no other node changes. */
  function Attach<N(==)>(m: map<N, Links<N>>, c: N, d: Dir, n: N, x: int): map<N, Links<N>>
    requires c in m
  {
    var l := m[c];
    m[c := if d == Left then l.(left := Some(n)) else l.(right := Some(n))]
     [n := Links(Some(c), None, None, x)]
  }

  lemma {:induction false} InsertLinks<N>(s: Shape<N>, par: Option<N>, x: int, n: N, p: seq<Dir>, d: Dir)
    requires Distinct(s) && n !in Nodes(s)
    requires SearchPath(s, x) == p + [d] && IsNode(s, p) && !IsNode(s, p + [d])
    ensures Sub(s, p).node in LinkMap(s, par)
    ensures LinkMap(InsertShape(s, x, n), par) == Attach(LinkMap(s, par), Sub(s, p).node, d, n, x)
    decreases s
  {
    var m, e := s.node, if x < s.value then Left else Right;
    var c := Child(s, e);
    assert SearchPath(s, x) == [e] + SearchPath(c, x);
    assert (p + [d])[0] == e && (p + [d])[1..] == SearchPath(c, x);
    SubInside(s, [e]);
    assert Sub(s, [e]) == c;
    if p == [] {
      assert p + [d] == [e];
      assert c == Leaf && d == e;
      InsertAtTop(s, par, x, n, d);
    } else {
      assert p[0] == e && (p + [d])[1..] == p[1..] + [d];
      assert (p + [d]) == [e] + (p[1..] + [d]);
      InsertLinks(c, Some(m), x, n, p[1..], d);
      SubInside(c, p[1..]);
      InsertBelow(s, par, x, n, e, Sub(s, p).node, d);
    }
  }

  /** Insertion below a child of the top node changes the link map as it
      changes the child's link map. */
  lemma InsertBelow<N>(s: Shape<N>, par: Option<N>, x: int, n: N, e: Dir, k: N, d: Dir)
    requires s.Branch? && Distinct(s) && n !in Nodes(s)
    requires e == (if x < s.value then Left else Right) && x != s.value
    requires Child(s, e).Branch? && k in LinkMap(Child(s, e), Some(s.node))
    requires LinkMap(InsertShape(Child(s, e), x, n), Some(s.node)) ==
      Attach(LinkMap(Child(s, e), Some(s.node)), k, d, n, x)
    ensures k in LinkMap(s, par)
    ensures LinkMap(InsertShape(s, x, n), par) == Attach(LinkMap(s, par), k, d, n, x)
  {
    var m, c := s.node, Child(s, e);
    var lm, rm := LinkMap(s.left, Some(m)), LinkMap(s.right, Some(m));
    var l := Links(par, Top(s.left), Top(s.right), s.value);
    assert LinkMap(s, par) == lm + rm + map[m := l];
    var c' := InsertShape(c, x, n);
    assert Top(c') == Top(c);
    if e == Left {
      assert InsertShape(s, x, n) == Branch(m, s.value, c', s.right);
      AttachThrough(lm, rm, m, l, k, d, n, x);
    } else {
      assert InsertShape(s, x, n) == Branch(m, s.value, s.left, c');
      AttachThroughRight(lm, rm, m, l, k, d, n, x);
    }
  }

  /** Insertion into an empty slot of the top node. */
  lemma InsertAtTop<N>(s: Shape<N>, par: Option<N>, x: int, n: N, d: Dir)
    requires s.Branch? && Distinct(s) && n !in Nodes(s)
    requires x != s.value && d == (if x < s.value then Left else Right) && Child(s, d) == Leaf
    ensures LinkMap(InsertShape(s, x, n), par) == Attach(LinkMap(s, par), s.node, d, n, x)
  {
    var m := s.node;
    var lm, rm := LinkMap(s.left, Some(m)), LinkMap(s.right, Some(m));
    var t := Branch(n, x, Leaf, Leaf);
    var nm := map[n := Links(Some(m), None, None, x)];
    assert LinkMap(t, Some(m)) == nm;
    assert LinkMap(s, par) == lm + rm + map[m := Links(par, Top(s.left), Top(s.right), s.value)];
    if d == Left {
      assert InsertShape(s, x, n) == Branch(m, s.value, t, s.right);
      assert s.left == Leaf && lm == map[];
      AttachLeft(rm, m, n, Links(par, None, Top(s.right), s.value), x);
    } else {
      assert InsertShape(s, x, n) == Branch(m, s.value, s.left, t);
      assert s.right == Leaf && rm == map[];
      AttachRight(lm, m, n, Links(par, Top(s.left), None, s.value), x);
    }
  }

  lemma AttachLeft<N>(rm: map<N, Links<N>>, m: N, n: N, l: Links<N>, x: int)
    requires n !in rm && n != m && m !in rm
    ensures map[n := Links(Some(m), None, None, x)] + rm + map[m := l.(left := Some(n))] ==
      Attach(map[] + rm + map[m := l], m, Left, n, x)
  {
  }

  lemma AttachRight<N>(lm: map<N, Links<N>>, m: N, n: N, l: Links<N>, x: int)
    requires n !in lm && n != m && m !in lm
    ensures lm + map[n := Links(Some(m), None, None, x)] + map[m := l.(right := Some(n))] ==
      Attach(lm + map[] + map[m := l], m, Right, n, x)
  {
  }

  /** Attaching below the left subtree commutes with adding the rest of the
      tree around it. */
  lemma AttachThrough<N>(lm: map<N, Links<N>>, rm: map<N, Links<N>>, m: N, l: Links<N>, k: N, d: Dir, n: N, x: int)
    requires k in lm && k !in rm && k != m && n !in lm && n !in rm && n != m
    ensures Attach(lm, k, d, n, x) + rm + map[m := l] == Attach(lm + rm + map[m := l], k, d, n, x)
  {
  }

  /** The same below the right subtree. */
  lemma AttachThroughRight<N>(lm: map<N, Links<N>>, rm: map<N, Links<N>>, m: N, l: Links<N>, k: N, d: Dir, n: N, x: int)
    requires k in rm && k !in lm && k != m && n !in lm && n !in rm && n != m
    ensures lm + Attach(rm, k, d, n, x) + map[m := l] == Attach(lm + rm + map[m := l], k, d, n, x)
  {
  }

  // ---------------------------------------------------------------- links

  /** The link map records, for the node at `p`, its parent, its children and
      its value. */
  lemma {:induction false} LinkAt<N>(s: Shape<N>, par: Option<N>, p: seq<Dir>)
    requires Distinct(s) && IsNode(s, p)
    ensures Sub(s, p).node in LinkMap(s, par)
    ensures LinkMap(s, par)[Sub(s, p).node] ==
      Links(ParentAt(s, par, p), Top(Sub(s, p).left), Top(Sub(s, p).right), Sub(s, p).value)
    decreases |p|
  {
    if p != [] {
      var c := Child(s, p[0]);
      var rest := p[1..];
      LinkAt(c, Some(s.node), rest);
      SubInside(c, rest);
      var k := Sub(c, rest).node;
      UnionLookup(LinkMap(s.left, Some(s.node)), LinkMap(s.right, Some(s.node)),
        s.node, Links(par, Top(s.left), Top(s.right), s.value), k);
      if rest != [] {
        DropLast(p);
      }
    }
  }

  /** Dropping the last step of a path of two or more steps keeps its first. */
  lemma DropLast(p: seq<Dir>)
    requires |p| >= 2
    ensures var q := p[..|p| - 1]; q != [] && q[0] == p[0] && q[1..] == p[1..][..|p| - 2]
  {
  }

  /** A lookup in the link map of a branch finds the entry of the subtree
      that holds the key. */
  lemma UnionLookup<N>(lm: map<N, Links<N>>, rm: map<N, Links<N>>, m: N, l: Links<N>, k: N)
    ensures k in lm && k !in rm && k != m ==> k in lm + rm + map[m := l] && (lm + rm + map[m := l])[k] == lm[k]
    ensures k in rm && k != m ==> k in lm + rm + map[m := l] && (lm + rm + map[m := l])[k] == rm[k]
  {
  }

  // ---------------------------------------------------------------- iteration

  /** Values of an ordered tree come out of the in-order walk strictly
      increasing, and they are the tree's values. */
  lemma {:induction false} InOrderSorted<N>(s: Shape<N>)
    requires Ordered(s)
    ensures forall i, j :: 0 <= i < j < |InOrder(s)| ==> InOrder(s)[i] < InOrder(s)[j]
    ensures forall i :: 0 <= i < |InOrder(s)| ==> InOrder(s)[i] in Elems(s)
    ensures forall x :: x in Elems(s) ==> x in InOrder(s)
  {
    if s.Branch? {
      InOrderSorted(s.left);
      InOrderSorted(s.right);
      var l, r := InOrder(s.left), InOrder(s.right);
      var t := InOrder(s);
      assert t == l + [s.value] + r;
      forall i | 0 <= i < |t|
        ensures t[i] in Elems(s)
        ensures i < |l| ==> t[i] == l[i] && t[i] < s.value
        ensures |l| < i ==> t[i] == r[i - |l| - 1] && s.value < t[i]
      {
      }
    }
  }

  /** In an ordered tree a node's left child and right child hold different
      values, so `is_left_child` tells the two slots apart. */
  lemma LeftChildAt<N>(s: Shape<N>, p: seq<Dir>)
    requires Ordered(s) && IsNode(s, p) && p != []
    ensures IsNode(s, p[..|p| - 1])
    ensures Sub(s, p) == Child(Sub(s, p[..|p| - 1]), p[|p| - 1])
    ensures IsLeftChildAt(s, p) ==
      if Sub(s, p[..|p| - 1]).left.Leaf? then None else Some(p[|p| - 1] == Left)
  {
    Parent(s, p);
    SubInside(s, p[..|p| - 1]);
  }

  /** Climbing from the last node of a subtree reaches the next node in order,
      when it reaches one. */
  lemma {:induction false} ClimbSound<N>(s: Shape<N>, p: seq<Dir>)
    requires Ordered(s) && IsNode(s, p)
    ensures Climb(s, p).Some? ==> IsNode(s, Climb(s, p).value) && Index(s, Climb(s, p).value) == Last(s, p) + 1
    decreases |p|
  {
    if p != [] {
      var q := p[..|p| - 1];
      LeftChildAt(s, p);
      assert p == q + [p[|p| - 1]];
      BeforeConcat(s, q, [p[|p| - 1]]);
      ClimbSound(s, q);
    }
  }

  /** On a tree the iterator walks completely, a climb that finds nothing
      starts from the last node in order. */
  lemma {:induction false} ClimbComplete<N>(s: Shape<N>, p: seq<Dir>)
    requires Ordered(s) && Fine(s, true) && IsNode(s, p)
    ensures Climb(s, p).None? ==> Last(s, p) == Size(s) - 1
    decreases |p|
  {
    if p != [] {
      var q := p[..|p| - 1];
      LeftChildAt(s, p);
      assert p == q + [p[|p| - 1]];
      BeforeConcat(s, q, [p[|p| - 1]]);
      ClimbComplete(s, q);
      if p[|p| - 1] == Right {
        FineAt(s, true, q);
        SpineLast(s, p);
      }
    }
  }

  /** Off the rightmost spine, a node with a right child has a left child. */
  lemma {:induction false} FineAt<N>(s: Shape<N>, spine: bool, p: seq<Dir>)
    requires Fine(s, spine) && IsNode(s, p + [Right])
    ensures Sub(s, p).Branch? && (Sub(s, p).left.Branch? || (spine && AllRight(p)))
    decreases |p|
  {
    SubConcat(s, p, [Right]);
    if p != [] {
      assert (p + [Right])[1..] == p[1..] + [Right];
      FineAt(Child(s, p[0]), if p[0] == Left then false else spine, p[1..]);
    }
  }

  /** The subtree at a path of right steps ends with the tree's last value. */
  lemma {:induction false} SpineLast<N>(s: Shape<N>, p: seq<Dir>)
    requires IsNode(s, p)
    ensures AllRight(p) ==> Last(s, p) == Size(s) - 1
    decreases |p|
  {
    if p != [] {
      SpineLast(Child(s, p[0]), p[1..]);
    }
  }

  /** Each step of the iterator moves to the next node in order, when it moves. */
  lemma NextSound<N>(s: Shape<N>, p: seq<Dir>)
    requires Ordered(s) && IsNode(s, p)
    ensures NextPath(s, p).Some? ==> IsNode(s, NextPath(s, p).value) && Index(s, NextPath(s, p).value) == Index(s, p) + 1
  {
    var t := Sub(s, p);
    if t.right.Branch? {
      var lm := Leftmost(t.right);
      assert p + [Right] + lm == p + ([Right] + lm);
      SubConcat(s, p, [Right] + lm);
      BeforeConcat(s, p, [Right] + lm);
    } else {
      ClimbSound(s, p);
    }
  }

  /** On a tree the iterator walks completely, the iterator stops only after
      the last node in order. */
  lemma NextComplete<N>(s: Shape<N>, p: seq<Dir>)
    requires Ordered(s) && Fine(s, true) && IsNode(s, p)
    ensures NextPath(s, p).None? ==> Index(s, p) == Size(s) - 1
  {
    ClimbComplete(s, p);
    var t := Sub(s, p);
    assert Size(t) == Size(t.left) + 1 + Size(t.right);
  }

  /** What one step of the iterator at `p` yields and where it moves: the
      value at `p` is the `Index(s, p)`-th in order, and on an ordered tree
      the step goes to the next rank, or stops at the last one when the walk
      covers the tree. */
  lemma NextFacts<N>(s: Shape<N>, p: seq<Dir>)
    requires IsNode(s, p)
    ensures Index(s, p) < Size(s) && InOrder(s)[Index(s, p)] == Sub(s, p).value
    ensures Ordered(s) && NextPath(s, p).Some? ==>
      IsNode(s, NextPath(s, p).value) && Index(s, NextPath(s, p).value) == Index(s, p) + 1
    ensures Ordered(s) && Fine(s, true) && NextPath(s, p).None? ==> Index(s, p) == Size(s) - 1
  {
    IndexValue(s, p);
    if Ordered(s) {
      NextSound(s, p);
      if Fine(s, true) {
        NextComplete(s, p);
      }
    }
  }

  /** The tree the exercise's tests build by inserting 1, 5, 3 and 7 into
      the nodes `a`, `b`, `c` and `d`. */
  function TestShape<N>(a: N, b: N, c: N, d: N): Shape<N>
  {
    Branch(a, 1, Leaf, Branch(b, 5, Branch(c, 3, Leaf, Leaf), Branch(d, 7, Leaf, Leaf)))
  }

  /** Inserting 1, 5, 3 and 7 into an empty tree builds that tree. */
  lemma TestInserts<N>(a: N, b: N, c: N, d: N)
    ensures Inserts([1, 5, 3, 7], [a, b, c, d]) == TestShape(a, b, c, d)
  {
    InsertsSnoc([], [], 1, a);
    InsertsSnoc([1], [a], 5, b);
    InsertsSnoc([1, 5], [a, b], 3, c);
    InsertsSnoc([1, 5, 3], [a, b, c], 7, d);
    assert [1] + [5] == [1, 5] && [1, 5] + [3] == [1, 5, 3] && [1, 5, 3] + [7] == [1, 5, 3, 7];
    assert [a] + [b] == [a, b] && [a, b] + [c] == [a, b, c] && [a, b, c] + [d] == [a, b, c, d];
    assert Inserts([1], [a]) == InsertShape(Leaf, 1, a);
    var l3, l7 := Branch(c, 3, Leaf, Leaf), Branch(d, 7, Leaf, Leaf);
    var b5 := Branch(b, 5, Leaf, Leaf);
    assert InsertShape(Leaf, 5, b) == b5;
    assert InsertShape(Branch(a, 1, Leaf, Leaf), 5, b) == Branch(a, 1, Leaf, b5);
    assert InsertShape(Leaf, 3, c) == l3;
    assert InsertShape(b5, 3, c) == Branch(b, 5, l3, Leaf);
    assert InsertShape(Branch(a, 1, Leaf, b5), 3, c) == Branch(a, 1, Leaf, Branch(b, 5, l3, Leaf));
    assert InsertShape(Leaf, 7, d) == l7;
    var r := Branch(b, 5, l3, l7);
    assert InsertShape(Branch(b, 5, l3, Leaf), 7, d) == r;
    assert InsertShape(Branch(a, 1, Leaf, Branch(b, 5, l3, Leaf)), 7, d) == Branch(a, 1, Leaf, r);
  }

  /** That tree is ordered, the iterator walks all of it, and its in-order
      values are 1, 3, 5, 7. */
  lemma TestTree<N>(a: N, b: N, c: N, d: N)
    ensures Ordered(TestShape(a, b, c, d)) && Fine(TestShape(a, b, c, d), true)
    ensures InOrder(TestShape(a, b, c, d)) == [1, 3, 5, 7]
  {
    var l3, l7 := Branch(c, 3, Leaf, Leaf), Branch(d, 7, Leaf, Leaf);
    var r := Branch(b, 5, l3, l7);
    assert Elems(l3.left) == {} && Elems(l3) == {3} && Elems(l7) == {7};
    assert Elems(r) == {3, 5, 7};
    assert InOrder(l3.left) == [] && InOrder(l3) == [3] && InOrder(l7) == [7];
    assert InOrder(r) == [3, 5, 7];
    assert Ordered(l3) && Ordered(l7);
    assert Ordered(r);
    assert Fine(l3.left, false) && Fine(l3, false) && Fine(l7, true);
    assert Fine(r, true);
  }

  /** The iterator stops early on a tree that is not `Fine`: inserting 10, 1
      and 5 hangs 5 right of 1, whose left slot is empty, so after 1 and 5
      `is_left_child` answers `None` and 10 is never reached. */
  lemma EarlyStop()
    ensures var s: Shape<int> := Branch(10, 10, Branch(1, 1, Leaf, Branch(5, 5, Leaf, Leaf)), Leaf);
      s == InsertShape(InsertShape(InsertShape(Leaf, 10, 10), 1, 1), 5, 5) &&
      Ordered(s) && InOrder(s) == [1, 5, 10] &&
      Leftmost(s) == [Left] && NextPath(s, [Left]) == Some([Left, Right]) &&
      NextPath(s, [Left, Right]).None?
  {
    var s: Shape<int> := Branch(10, 10, Branch(1, 1, Leaf, Branch(5, 5, Leaf, Leaf)), Leaf);
    assert s == InsertShape(InsertShape(InsertShape(Leaf, 10, 10), 1, 1), 5, 5);
    assert Ordered(s);
    assert InOrder(s) == [1, 5, 10];
    assert Leftmost(s) == [Left];
    assert [Left] + [Right] + [] == [Left, Right];
    assert NextPath(s, [Left]) == Some([Left, Right]);
    assert [Left, Right][..1] == [Left];
    assert IsLeftChildAt(s, [Left, Right]).None?;
  }
}
