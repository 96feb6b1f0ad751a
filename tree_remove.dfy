/** `remove` of the binary-tree exercise on shapes. The search stops at the
    node `c` holding `x`. Without a right child, `c` is replaced by its left
    subtree. With one, `c` takes the value of the right-most node `M` of its
    right subtree (the maximum there), and `M` is replaced by its left
    subtree. The node replaced is always a right child; the other cases end
    in a panic of the source, or misread a duplicate of `x` as the node, and
    are excluded by `RemoveSafe`. */
module TreeRemove {
  import opened Wrappers
  import opened TreeShape

  /** The path of right steps to the largest node of `s`. */
  function Rightmost<N>(s: Shape<N>): (p: seq<Dir>)
    requires s.Branch?
    ensures IsNode(s, p) && Sub(s, p).right.Leaf?
  {
    if s.right.Leaf? then [] else [Right] + Rightmost(s.right)
  }

  /** One step of the right-most walk of `remove` from the node at
      `p + r`, having taken the right steps `r` below `p`. */
  lemma RightmostMoves<N>(s: Shape<N>, p: seq<Dir>, r: seq<Dir>)
    requires IsNode(s, p) && IsNode(s, p + r) && Rightmost(Sub(s, p)) == r + Rightmost(Sub(s, p + r))
    ensures Sub(s, p + r).right.Leaf? ==> Rightmost(Sub(s, p)) == r
    ensures Sub(s, p + r).right.Branch? ==>
      IsNode(s, p + (r + [Right])) && Sub(s, p + (r + [Right])) == Sub(s, p + r).right &&
      Rightmost(Sub(s, p)) == (r + [Right]) + Rightmost(Sub(s, p + (r + [Right]))) &&
      Size(Sub(s, p + (r + [Right]))) < Size(Sub(s, p + r))
  {
    var t := Sub(s, p + r);
    Step(s, p + r, Right);
    assert p + r + [Right] == p + (r + [Right]);
    if t.right.Leaf? {
      assert Rightmost(t) == [] && r + [] == r;
    } else {
      var u := Rightmost(t.right);
      assert Rightmost(t) == [Right] + u;
      assert r + ([Right] + u) == (r + [Right]) + u;
      assert Size(t.right) < Size(t);
    }
  }

  /** `s` without its right-most node, whose left subtree takes its place. */
  function DropMax<N>(s: Shape<N>): Shape<N>
    requires s.Branch?
  {
    if s.right.Leaf? then s.left else Branch(s.node, s.value, s.left, DropMax(s.right))
  }

  function MaxValue<N>(s: Shape<N>): int
    requires s.Branch?
  {
    Sub(s, Rightmost(s)).value
  }

  /** `remove` on shapes. */
  function RemoveShape<N>(s: Shape<N>, x: int): Shape<N>
  {
    if s.Leaf? then s
    else if x < s.value then Branch(s.node, s.value, RemoveShape(s.left, x), s.right)
    else if x > s.value then Branch(s.node, s.value, s.left, RemoveShape(s.right, x))
    else if s.right.Leaf? then s.left
    else Branch(s.node, MaxValue(s.right), s.left, DropMax(s.right))
  }

  /** The path of the node `remove` takes out of the tree: the node holding
      `x` when it has no right child, otherwise the right-most node of its
      right subtree. */
  function RemovedPath<N>(s: Shape<N>, x: int): (q: seq<Dir>)
    requires IsNode(s, SearchPath(s, x))
  {
    var p := SearchPath(s, x);
    if Sub(s, p).right.Leaf? then p else p + [Right] + Rightmost(Sub(s, p).right)
  }

  /** The inputs modelled for `remove`: `x` is absent, or the node taken out
      has a parent, hangs in its right slot, and the parent's left slot holds
      a node with another value, so that `is_left_child` answers
      `Some(false)`. A left child or the root would be borrowed twice, an
      empty left slot unwraps `None`; a left sibling holding `x` as well
      makes `is_left_child` answer `Some(true)` for a right child, a case
      that does not panic and is not modelled. */
  predicate RemoveSafe<N>(s: Shape<N>, x: int)
  {
    !IsNode(s, SearchPath(s, x)) ||
    (var q := RemovedPath(s, x);
     q != [] && q[|q| - 1] == Right &&
     (var par := Sub(s, q[..|q| - 1]);
      par.Branch? && par.left.Branch? && par.left.value != x))
  }

  /** The link map after the node `k` is taken out: its parent `pn` gets
      `k`'s left subtree `l` in its right slot and `l` gets `pn` as parent. */
  function Unlink<N(==)>(m: map<N, Links<N>>, k: N, pn: N, l: Option<N>): map<N, Links<N>>
    requires pn in m && (l.Some? ==> l.value in m)
  {
    var m2 := (m - {k})[pn := m[pn].(right := l)];
    if l.Some? then m2[l.value := m[l.value].(parent := Some(pn))] else m2
  }

  /** The link map of `RemoveShape(s, x)` is that of `s` with the node of
      `ks` unlinked below its parent `pn`, after the node of `cs` (which
      holds `x`) took the value of `ks` when the two differ. */
  predicate Unlinked<N(==)>(s: Shape<N>, par: Option<N>, x: int, cs: Shape<N>, ks: Shape<N>, pn: N)
    requires cs.Branch? && ks.Branch?
  {
    var m := LinkMap(s, par);
    var l := Top(ks.left);
    cs.node in m && pn in m && (l.Some? ==> l.value in m) &&
    LinkMap(RemoveShape(s, x), par) ==
      Unlink(if cs.right.Leaf? then m else Revalue(m, cs.node, ks.value), ks.node, pn, l)
  }

  /** The link map after node `c` takes the value `v`. */
  function Revalue<N(==)>(m: map<N, Links<N>>, c: N, v: int): map<N, Links<N>>
    requires c in m
  {
    m[c := m[c].(value := v)]
  }

  // ---------------------------------------------------------------- values

  /** Removing an absent value changes nothing. */
  lemma {:induction false} RemoveAbsent<N>(s: Shape<N>, x: int)
    requires !IsNode(s, SearchPath(s, x))
    ensures RemoveShape(s, x) == s
  {
    if s.Branch? {
      if x < s.value {
        RemoveAbsent(s.left, x);
      } else if x > s.value {
        RemoveAbsent(s.right, x);
      }
    }
  }

  /** Dropping the right-most node takes exactly that node and its value out. */
  lemma {:induction false} DropMaxContents<N>(s: Shape<N>)
    requires s.Branch? && Distinct(s)
    ensures Nodes(DropMax(s)) == Nodes(s) - {Sub(s, Rightmost(s)).node}
    ensures Sub(s, Rightmost(s)).node in Nodes(s) && Distinct(DropMax(s))
    ensures Size(DropMax(s)) == Size(s) - 1
    ensures Elems(DropMax(s)) + {MaxValue(s)} == Elems(s)
    ensures Ordered(s) ==> Ordered(DropMax(s)) && MaxValue(s) !in Elems(DropMax(s))
    ensures Ordered(s) ==> forall y :: y in Elems(s) ==> y <= MaxValue(s)
  {
    if s.right.Branch? {
      DropMaxContents(s.right);
    }
  }

  /** The removed path leads to a node without right child, one step below
      the top or through the right-most path below the node holding `x`. */
  lemma {:induction false} RemovedAt<N>(s: Shape<N>, x: int)
    requires IsNode(s, SearchPath(s, x))
    ensures IsNode(s, RemovedPath(s, x)) && Sub(s, RemovedPath(s, x)).right.Leaf?
    ensures x < s.value ==> RemovedPath(s, x) == [Left] + RemovedPath(s.left, x)
    ensures x > s.value ==> RemovedPath(s, x) == [Right] + RemovedPath(s.right, x)
    ensures x == s.value && s.right.Branch? ==> RemovedPath(s, x) == [Right] + Rightmost(s.right)
    ensures x == s.value && s.right.Leaf? ==> RemovedPath(s, x) == []
    ensures RemovedPath(s, x) == [] ==> x == s.value && s.right.Leaf?
    ensures x < s.value ==>
      IsNode(s.left, SearchPath(s.left, x)) && Sub(s, SearchPath(s, x)) == Sub(s.left, SearchPath(s.left, x))
    ensures x > s.value ==>
      IsNode(s.right, SearchPath(s.right, x)) && Sub(s, SearchPath(s, x)) == Sub(s.right, SearchPath(s.right, x))
  {
    var p := SearchPath(s, x);
    var c := Sub(s, p);
    if c.right.Branch? {
      var r := Rightmost(c.right);
      assert p + [Right] + r == p + ([Right] + r);
      SubConcat(s, p, [Right] + r);
    }
    if x != s.value {
      var e := if x < s.value then Left else Right;
      var p' := SearchPath(Child(s, e), x);
      assert p == [e] + p' && p[1..] == p';
      assert c == Sub(Child(s, e), p');
      if c.right.Branch? {
        var r := Rightmost(c.right);
        assert p + [Right] + r == [e] + (p' + [Right] + r);
      }
    }
  }

  /** `remove` takes the node on `RemovedPath` out of the tree, and one node
      fewer remains. */
  lemma {:induction false} RemoveNodes<N>(s: Shape<N>, x: int)
    requires Distinct(s) && IsNode(s, SearchPath(s, x))
    ensures IsNode(s, RemovedPath(s, x))
    ensures Nodes(RemoveShape(s, x)) == Nodes(s) - {Sub(s, RemovedPath(s, x)).node}
    ensures Distinct(RemoveShape(s, x))
    ensures Size(RemoveShape(s, x)) == Size(s) - 1
  {
    RemovedAt(s, x);
    if x != s.value {
      var e := if x < s.value then Left else Right;
      var q := RemovedPath(Child(s, e), x);
      assert RemovedPath(s, x) == [e] + q && ([e] + q)[1..] == q;
      RemoveNodes(Child(s, e), x);
      SubInside(Child(s, e), q);
      assert Sub(s, RemovedPath(s, x)) == Sub(Child(s, e), q);
      RemoveNodesStep(s, x, e, Sub(Child(s, e), q).node);
    } else if s.right.Branch? {
      DropMaxContents(s.right);
    }
  }

  /** One level of `RemoveNodes` above the node holding `x`. */
  lemma RemoveNodesStep<N>(s: Shape<N>, x: int, e: Dir, k: N)
    requires s.Branch? && Distinct(s) && x != s.value && e == (if x < s.value then Left else Right)
    requires k in Nodes(Child(s, e))
    requires Nodes(RemoveShape(Child(s, e), x)) == Nodes(Child(s, e)) - {k}
    requires Distinct(RemoveShape(Child(s, e), x))
    requires Size(RemoveShape(Child(s, e), x)) == Size(Child(s, e)) - 1
    ensures Nodes(RemoveShape(s, x)) == Nodes(s) - {k}
    ensures Distinct(RemoveShape(s, x))
    ensures Size(RemoveShape(s, x)) == Size(s) - 1
  {
    if e == Left {
      assert RemoveShape(s, x) == Branch(s.node, s.value, RemoveShape(s.left, x), s.right);
    } else {
      assert RemoveShape(s, x) == Branch(s.node, s.value, s.left, RemoveShape(s.right, x));
    }
  }

  /** On an ordered tree `remove` takes out `x` and nothing else. */
  lemma {:induction false} RemoveElems<N>(s: Shape<N>, x: int)
    requires Ordered(s) && Distinct(s)
    ensures Elems(RemoveShape(s, x)) == Elems(s) - {x}
  {
    if s.Branch? {
      if x < s.value {
        RemoveElems(s.left, x);
      } else if x > s.value {
        RemoveElems(s.right, x);
      } else if s.right.Branch? {
        DropMaxContents(s.right);
      }
    }
  }

  /** `RemoveElems` for any tree: only an ordered one is promised to lose
      exactly `x`. */
  lemma RemoveContents<N>(s: Shape<N>, x: int)
    requires Distinct(s)
    ensures Ordered(s) ==> Elems(RemoveShape(s, x)) == Elems(s) - {x}
  {
    if Ordered(s) {
      RemoveElems(s, x);
    }
  }

  /** A `remove` that finds `x` and does not panic keeps the top node and
      takes one node out. */
  lemma RemoveFound<N>(s: Shape<N>, x: int)
    requires Distinct(s) && IsNode(s, SearchPath(s, x)) && RemoveSafe(s, x)
    ensures Nodes(RemoveShape(s, x)) <= Nodes(s) && Size(RemoveShape(s, x)) == Size(s) - 1
    ensures Top(RemoveShape(s, x)) == Top(s)
  {
    RemoveNodes(s, x);
    SafeParts(s, x);
    TopKept(s, x);
  }

  /** `remove` keeps an ordered tree ordered when the node holding `x` has
      no right subtree or a right subtree of one node. */
  lemma {:induction false} RemoveOrdered<N>(s: Shape<N>, x: int)
    requires Ordered(s) && Distinct(s) && IsNode(s, SearchPath(s, x))
    requires Size(Sub(s, SearchPath(s, x)).right) <= 1
    ensures Ordered(RemoveShape(s, x))
  {
    if x < s.value {
      assert SearchPath(s, x) == [Left] + SearchPath(s.left, x);
      RemoveOrdered(s.left, x);
      RemoveElems(s.left, x);
    } else if x > s.value {
      assert SearchPath(s, x) == [Right] + SearchPath(s.right, x);
      RemoveOrdered(s.right, x);
      RemoveElems(s.right, x);
    } else if s.right.Branch? {
      var r := s.right;
      assert r.left.Leaf? && r.right.Leaf?;
      assert Rightmost(r) == [] && DropMax(r) == r.left;
      assert r.value in Elems(r);
      assert forall y :: y in Elems(s.left) ==> y < MaxValue(r);
    }
  }

  /** Where the node `remove` takes out sits when it does not panic: it is
      the right child of the node at `q'`, whose left child holds a value
      other than `x` and is another node; its own left child is not its
      parent. */
  lemma RemovedSlot<N>(s: Shape<N>, x: int)
    requires Distinct(s) && IsNode(s, SearchPath(s, x)) && RemoveSafe(s, x)
    ensures var q := RemovedPath(s, x);
      q != [] &&
      var q' := q[..|q| - 1];
      IsNode(s, q) && IsNode(s, q') && IsNode(s, q' + [Left]) &&
      Sub(s, q) == Sub(s, q').right && Sub(s, q).right.Leaf? &&
      Sub(s, q' + [Left]) == Sub(s, q').left && Sub(s, q' + [Left]).value != x &&
      Sub(s, q' + [Left]).node != Sub(s, q).node &&
      (Sub(s, q).left.Branch? ==> Sub(s, q).left.node != Sub(s, q').node)
  {
    RemovedAt(s, x);
    SafeParts(s, x);
    ParentSlots(s, RemovedPath(s, x));
  }

  /** The node taken out is the node holding `x` when that has no right
      child, and otherwise the right-most node below its right child; the
      left sibling of the node taken out is not the node holding `x`. */
  lemma RemovedBelow<N>(s: Shape<N>, x: int)
    requires Distinct(s) && IsNode(s, SearchPath(s, x)) && RemoveSafe(s, x)
    ensures var p, q := SearchPath(s, x), RemovedPath(s, x);
      q != [] && IsNode(s, q[..|q| - 1] + [Left]) &&
      Sub(s, q[..|q| - 1] + [Left]).node != Sub(s, p).node &&
      (Sub(s, p).right.Leaf? ==> q == p) &&
      (Sub(s, p).right.Branch? ==>
        IsNode(s, p + [Right]) && Sub(s, p + [Right]) == Sub(s, p).right &&
        q == p + [Right] + Rightmost(Sub(s, p + [Right])) && IsNode(s, q) &&
        Sub(s, p).node != Sub(s, q).node)
  {
    var p, q := SearchPath(s, x), RemovedPath(s, x);
    RemovedSlot(s, x);
    if Sub(s, p).right.Branch? {
      Step(s, p, Right);
      var r := [Right] + Rightmost(Sub(s, p).right);
      assert q == p + r;
      AboveDistinct(s, p, r, q);
    }
  }

  /** The node at `q`, a right child, its parent at `q'` and its sibling at
      `q' + [Left]` are three nodes, and its left child is not its parent. */
  lemma ParentSlots<N>(s: Shape<N>, q: seq<Dir>)
    requires Distinct(s) && IsNode(s, q) && q != [] && q[|q| - 1] == Right
    requires Sub(s, q[..|q| - 1]).Branch? && Sub(s, q[..|q| - 1]).left.Branch?
    ensures var q' := q[..|q| - 1];
      IsNode(s, q') && IsNode(s, q' + [Left]) &&
      Sub(s, q) == Sub(s, q').right && Sub(s, q' + [Left]) == Sub(s, q').left &&
      Sub(s, q' + [Left]).node != Sub(s, q).node &&
      (Sub(s, q).left.Branch? ==> Sub(s, q).left.node != Sub(s, q').node)
  {
    var q' := q[..|q| - 1];
    assert q == q' + [Right];
    Parent(s, q);
    Step(s, q', Left);
    SiblingsDistinct(s, q');
    if Sub(s, q).left.Branch? {
      Step(s, q, Left);
      assert q' + [Right, Left] == q + [Left];
      DistinctBelow(s, q', [Right, Left]);
    }
  }

  /** The node at `p` is neither a node `r` below it nor the left sibling of
      that node. */
  lemma AboveDistinct<N>(s: Shape<N>, p: seq<Dir>, r: seq<Dir>, q: seq<Dir>)
    requires Distinct(s) && r != [] && q == p + r && IsNode(s, q)
    requires IsNode(s, q[..|q| - 1] + [Left])
    ensures IsNode(s, p) && Sub(s, p).node != Sub(s, q).node
    ensures Sub(s, q[..|q| - 1] + [Left]).node != Sub(s, p).node
  {
    DistinctBelow(s, p, r);
    assert q[..|q| - 1] + [Left] == p + (r[..|r| - 1] + [Left]);
    DistinctBelow(s, p, r[..|r| - 1] + [Left]);
  }

  lemma SafeParts<N>(s: Shape<N>, x: int)
    requires IsNode(s, SearchPath(s, x)) && RemoveSafe(s, x)
    ensures var q := RemovedPath(s, x);
      q != [] && q[|q| - 1] == Right && Sub(s, q[..|q| - 1]).Branch? &&
      Sub(s, q[..|q| - 1]).left.Branch? && Sub(s, q[..|q| - 1]).left.value != x
  {
  }

  /** A search path that ends at a node ends at a node holding `x`. */
  lemma {:induction false} SearchValue<N>(s: Shape<N>, x: int)
    requires IsNode(s, SearchPath(s, x))
    ensures Sub(s, SearchPath(s, x)).value == x
  {
    if x != s.value {
      var e := if x < s.value then Left else Right;
      var p' := SearchPath(Child(s, e), x);
      assert SearchPath(s, x) == [e] + p' && ([e] + p')[1..] == p';
      SearchValue(Child(s, e), x);
    }
  }

  /** The `Equal` branch of `remove` on the link map `m` of `s`: `c` holds
      `x`; `k` is the node taken out, the right child of `pn` and the parent
      of `l`; `m1` is `m` after `c` took the value of `k`. Taking `k` out of
      `m1` gives the link map of `RemoveShape(s, x)`. */
  lemma UnhookPlan<N>(s: Shape<N>, x: int) returns (c: N, k: N, pn: N, l: Option<N>, m1: map<N, Links<N>>)
    requires Distinct(s) && IsNode(s, SearchPath(s, x)) && RemoveSafe(s, x)
    ensures var m, p := LinkMap(s, None), SearchPath(s, x);
      c == Sub(s, p).node && c in m && k in m && m[c].value == x &&
      (m[c].right.None? ==> k == c && m1 == m) &&
      (m[c].right.Some? ==>
        IsNode(s, p + [Right]) && m[c].right == Some(Sub(s, p + [Right]).node) &&
        IsNode(s, p + [Right] + Rightmost(Sub(s, p + [Right]))) &&
        k == Sub(s, p + [Right] + Rightmost(Sub(s, p + [Right]))).node &&
        k != c && m1 == Revalue(m, c, m[k].value)) &&
      m[k].parent == Some(pn) && m[k].left == l
    ensures var m := m1 - {k};
      pn in m && m[pn].right == Some(k) && m[pn].left.Some? && m[pn].left.value in m &&
      m[m[pn].left.value].value != x && (l.Some? ==> l.value in m && l.value != pn) &&
      Distinct(RemoveShape(s, x)) && LinkMap(RemoveShape(s, x), None) == Unlink(m, k, pn, l)
  {
    var m := LinkMap(s, None);
    c, k, pn, l := UnhookNodes(s, x);
    assert pn != k && (l.Some? ==> l.value != k);
    if m[c].right.None? {
      m1 := m;
    } else {
      m1 := Revalue(m, c, m[k].value);
    }
    UnlinkWithout(m1, k, pn, l);
  }

  /** The nodes `remove` rewires, read off the shape: `c` holds `x`, `k` is
      taken out, `pn` is its parent and `l` its left child. */
  lemma UnhookNodes<N>(s: Shape<N>, x: int) returns (c: N, k: N, pn: N, l: Option<N>)
    requires Distinct(s) && IsNode(s, SearchPath(s, x)) && RemoveSafe(s, x)
    ensures var m, p := LinkMap(s, None), SearchPath(s, x);
      c == Sub(s, p).node && c in m && m[c].value == x &&
      (m[c].right.None? ==> k == c) &&
      (m[c].right.Some? ==>
        IsNode(s, p + [Right]) && m[c].right == Some(Sub(s, p + [Right]).node) &&
        IsNode(s, p + [Right] + Rightmost(Sub(s, p + [Right]))) &&
        k == Sub(s, p + [Right] + Rightmost(Sub(s, p + [Right]))).node && k != c)
    ensures var m := LinkMap(s, None);
      k in m && m[k].parent == Some(pn) && m[k].left == l && m[k].right.None? &&
      pn in m && m[pn].right == Some(k) && m[pn].left.Some? && m[pn].left.value in m &&
      m[pn].left.value != c && m[pn].left.value != k && m[m[pn].left.value].value != x &&
      (l.Some? ==> l.value in m && l.value != pn && m[l.value].parent == Some(k))
    ensures var m := LinkMap(s, None);
      Distinct(RemoveShape(s, x)) &&
      LinkMap(RemoveShape(s, x), None) ==
        Unlink(if m[c].right.None? then m else Revalue(m, c, m[k].value), k, pn, l)
  {
    var p, q := SearchPath(s, x), RemovedPath(s, x);
    var m := LinkMap(s, None);
    RemovedSlot(s, x);
    RemovedBelow(s, x);
    SearchValue(s, x);
    var q' := q[..|q| - 1];
    var cs, ks, ps, ls := Sub(s, p), Sub(s, q), Sub(s, q'), Sub(s, q' + [Left]);
    c, k, pn, l := cs.node, ks.node, ps.node, Top(ks.left);
    assert c in m && m[c] == Links(ParentAt(s, None, p), Top(cs.left), Top(cs.right), x) by {
      LinkAt(s, None, p);
    }
    assert k in m && m[k] == Links(Some(pn), l, None, ks.value) by {
      LinkAt(s, None, q);
    }
    assert pn in m && m[pn] == Links(ParentAt(s, None, q'), Some(ls.node), Some(k), ps.value) by {
      LinkAt(s, None, q');
    }
    assert ls.node in m && m[ls.node].value == ls.value by {
      LinkAt(s, None, q' + [Left]);
    }
    if ks.left.Branch? {
      assert l.value in m && m[l.value].parent == Some(k) by {
        SubConcat(s, q, [Left]);
        assert (q + [Left])[..|q|] == q;
        LinkAt(s, None, q + [Left]);
      }
    }
    assert Distinct(RemoveShape(s, x)) by {
      RemoveNodes(s, x);
    }
    assert Unlinked(s, None, x, cs, ks, pn) by {
      SafeParts(s, x);
      RemoveLinks(s, None, x, q);
    }
  }

  /** `Unlink` drops the entry of `k` anyway. */
  lemma UnlinkWithout<N>(m: map<N, Links<N>>, k: N, pn: N, l: Option<N>)
    requires pn in m && pn != k && (l.Some? ==> l.value in m && l.value != k)
    ensures Unlink(m - {k}, k, pn, l) == Unlink(m, k, pn, l)
  {
  }

  // ---------------------------------------------------------------- links

  /** A node taken out at a non-empty path leaves the top node in place. */
  lemma TopKept<N>(s: Shape<N>, x: int)
    requires IsNode(s, SearchPath(s, x)) && RemovedPath(s, x) != []
    ensures RemoveShape(s, x).Branch? && RemoveShape(s, x).node == s.node
  {
    RemovedAt(s, x);
  }

  /** Giving the top node another parent changes only its own entry. */
  lemma Reparent<N>(s: Shape<N>, a: Option<N>, b: Option<N>)
    requires s.Branch?
    ensures LinkMap(s, b) == LinkMap(s, a)[s.node := LinkMap(s, a)[s.node].(parent := b)]
  {
  }

  /** A node whose right child `k` has no right child: `k` is replaced by its
      left subtree, and the node may take a new value `v`. */
  lemma SpliceRight<N>(u: Shape<N>, par: Option<N>, v: int)
    requires u.Branch? && u.right.Branch? && u.right.right.Leaf? && Distinct(u)
    ensures var m := LinkMap(u, par); var l := Top(u.right.left);
      u.node in m && (l.Some? ==> l.value in m) &&
      LinkMap(Branch(u.node, v, u.left, u.right.left), par) ==
      Unlink(Revalue(m, u.node, v), u.right.node, u.node, l)
  {
    var n, k, kl := u.node, u.right.node, u.right.left;
    var lm := LinkMap(u.left, Some(n));
    var top := Links(par, Top(u.left), Some(k), u.value);
    var km := LinkMap(kl, Some(k));
    var kentry := Links(Some(n), Top(kl), None, u.right.value);
    assert LinkMap(u.right, Some(n)) == km + map[] + map[k := kentry];
    assert LinkMap(u, par) == lm + (km + map[] + map[k := kentry]) + map[n := top];
    if kl.Branch? {
      Reparent(kl, Some(k), Some(n));
      SpliceMaps(lm, km, n, k, kl.node, top, kentry, v, par, Top(u.left));
    } else {
      SpliceMapsEmpty(lm, n, k, top, kentry, v, par, Top(u.left));
    }
  }

  lemma SpliceMaps<N>(lm: map<N, Links<N>>, km: map<N, Links<N>>, n: N, k: N, t: N,
                      top: Links<N>, kentry: Links<N>, v: int, par: Option<N>, lt: Option<N>)
    requires t in km && n !in km && k !in km && n !in lm && k !in lm && km.Keys !! lm.Keys && n != k
    requires top == Links(par, lt, Some(k), top.value)
    ensures var m := lm + (km + map[] + map[k := kentry]) + map[n := top];
      n in m && t in m &&
      lm + km[t := km[t].(parent := Some(n))] + map[n := Links(par, lt, Some(t), v)] ==
      Unlink(Revalue(m, n, v), k, n, Some(t))
  {
  }

  lemma SpliceMapsEmpty<N>(lm: map<N, Links<N>>, n: N, k: N,
                           top: Links<N>, kentry: Links<N>, v: int, par: Option<N>, lt: Option<N>)
    requires n !in lm && k !in lm && n != k
    requires top == Links(par, lt, Some(k), top.value)
    ensures var m := lm + (map[] + map[] + map[k := kentry]) + map[n := top];
      n in m &&
      lm + map[] + map[n := Links(par, lt, None, v)] == Unlink(Revalue(m, n, v), k, n, None)
  {
  }

  /** Taking the node out of a left subtree commutes with adding the rest of
      the tree around it. */
  lemma UnlinkLeft<N>(a: map<N, Links<N>>, rm: map<N, Links<N>>, n: N, top: Links<N>,
                      k: N, pn: N, l: Option<N>)
    requires k in a && pn in a && (l.Some? ==> l.value in a)
    requires k !in rm && pn !in rm && (l.Some? ==> l.value !in rm)
    requires n != k && n != pn && (l.Some? ==> l.value != n)
    ensures Unlink(a, k, pn, l) + rm + map[n := top] == Unlink(a + rm + map[n := top], k, pn, l)
  {
  }

  /** The same in a right subtree. */
  lemma UnlinkRight<N>(lm: map<N, Links<N>>, a: map<N, Links<N>>, n: N, top: Links<N>,
                       k: N, pn: N, l: Option<N>)
    requires k in a && pn in a && (l.Some? ==> l.value in a)
    requires k !in lm && pn !in lm && (l.Some? ==> l.value !in lm)
    requires n != k && n != pn && (l.Some? ==> l.value != n)
    ensures lm + Unlink(a, k, pn, l) + map[n := top] == Unlink(lm + a + map[n := top], k, pn, l)
  {
  }

  /** A new value inside a subtree commutes with adding the rest of the tree. */
  lemma RevalueInside<N>(lm: map<N, Links<N>>, rm: map<N, Links<N>>, n: N, top: Links<N>, c: N, v: int)
    requires (c in lm && c !in rm) || c in rm
    requires c != n
    ensures c in lm + rm + map[n := top]
    ensures c in lm && c !in rm ==> Revalue(lm, c, v) + rm + map[n := top] == Revalue(lm + rm + map[n := top], c, v)
    ensures c in rm ==> lm + Revalue(rm, c, v) + map[n := top] == Revalue(lm + rm + map[n := top], c, v)
  {
  }

  lemma RevalueTop<N>(lm: map<N, Links<N>>, rm: map<N, Links<N>>, n: N, top: Links<N>, v: int)
    ensures n in lm + rm + map[n := top]
    ensures Revalue(lm + rm + map[n := top], n, v) == lm + rm + map[n := top.(value := v)]
  {
  }

  /** Dropping the maximum of the right subtree of `u` while `u` takes the
      value `v`. */
  lemma {:induction false} DropLinks<N>(u: Shape<N>, par: Option<N>, v: int)
    requires u.Branch? && u.right.Branch? && Distinct(u)
    ensures var q := [Right] + Rightmost(u.right);
      IsNode(u, q) && IsNode(u, q[..|q| - 1]) &&
      (var m := LinkMap(u, par); var pn := Sub(u, q[..|q| - 1]).node; var l := Top(Sub(u, q).left);
       u.node in m && pn in m && (l.Some? ==> l.value in m) &&
       LinkMap(Branch(u.node, v, u.left, DropMax(u.right)), par) ==
       Unlink(Revalue(m, u.node, v), Sub(u, q).node, pn, l))
    decreases u
  {
    var r := u.right;
    var q := [Right] + Rightmost(r);
    if r.right.Leaf? {
      assert q == [Right] && q[..0] == [] && q[1..] == [];
      SpliceRight(u, par, v);
    } else {
      DropPaths(u);
      var q' := [Right] + Rightmost(r.right);
      DropLinks(r, Some(u.node), r.value);
      DropStep(u, par, v, Sub(r, q').node, Sub(r, q'[..|q'| - 1]).node, Top(Sub(r, q').left));
    }
  }

  /** The paths of `DropLinks` one level down. */
  lemma DropPaths<N>(u: Shape<N>)
    requires u.Branch? && u.right.Branch? && u.right.right.Branch?
    ensures var q, q' := [Right] + Rightmost(u.right), [Right] + Rightmost(u.right.right);
      Rightmost(u.right) == q' &&
      IsNode(u.right, q') && IsNode(u.right, q'[..|q'| - 1]) &&
      IsNode(u, q) && IsNode(u, q[..|q| - 1]) &&
      Sub(u, q) == Sub(u.right, q') && Sub(u, q[..|q| - 1]) == Sub(u.right, q'[..|q'| - 1]) &&
      Sub(u.right, q').node in Nodes(u.right) && Sub(u.right, q'[..|q'| - 1]).node in Nodes(u.right) &&
      (Sub(u.right, q').left.Branch? ==> Sub(u.right, q').left.node in Nodes(u.right))
  {
    var r := u.right;
    var q, q' := [Right] + Rightmost(r), [Right] + Rightmost(r.right);
    assert q[1..] == q';
    DropLast(q);
    Parent(r, q');
    SubInside(r, q');
    SubInside(r, q'[..|q'| - 1]);
    SubInside(Sub(r, q'), [Left]);
  }

  /** One level of `DropLinks` above the parent of the maximum. */
  lemma DropStep<N>(u: Shape<N>, par: Option<N>, v: int, k: N, pn: N, l: Option<N>)
    requires u.Branch? && u.right.Branch? && u.right.right.Branch? && Distinct(u)
    requires k in Nodes(u.right) && pn in Nodes(u.right) && (l.Some? ==> l.value in Nodes(u.right))
    requires var r := u.right; var rmap := LinkMap(r, Some(u.node));
      r.node in rmap && pn in rmap && (l.Some? ==> l.value in rmap) &&
      LinkMap(Branch(r.node, r.value, r.left, DropMax(r.right)), Some(u.node)) ==
      Unlink(Revalue(rmap, r.node, r.value), k, pn, l)
    ensures var m := LinkMap(u, par);
      u.node in m && pn in m && (l.Some? ==> l.value in m) &&
      LinkMap(Branch(u.node, v, u.left, DropMax(u.right)), par) == Unlink(Revalue(m, u.node, v), k, pn, l)
  {
    var n, r := u.node, u.right;
    var rmap := LinkMap(r, Some(n));
    RevalueSame(rmap, r.node);
    var lm := LinkMap(u.left, Some(n));
    var top := Links(par, Top(u.left), Top(r), u.value);
    assert LinkMap(u, par) == lm + rmap + map[n := top];
    assert DropMax(r) == Branch(r.node, r.value, r.left, DropMax(r.right));
    UnlinkRight(lm, rmap, n, top.(value := v), k, pn, l);
    RevalueTop(lm, rmap, n, top, v);
  }

  /** The link map after `remove`: the node on `RemovedPath` is taken out,
      its parent's right slot and its left child's parent slot are relinked,
      and when that node is not the one holding `x`, the node holding `x`
      takes its value. */
  lemma {:induction false} RemoveLinks<N>(s: Shape<N>, par: Option<N>, x: int, q: seq<Dir>)
    requires Distinct(s) && IsNode(s, SearchPath(s, x))
    requires q == RemovedPath(s, x) && q != [] && q[|q| - 1] == Right
    requires IsNode(s, q) && IsNode(s, q[..|q| - 1])
    ensures Unlinked(s, par, x, Sub(s, SearchPath(s, x)), Sub(s, q), Sub(s, q[..|q| - 1]).node)
    decreases s, 1
  {
    RemovedAt(s, x);
    if x == s.value {
      assert SearchPath(s, x) == [];
      RemoveAtTop(s, par, x);
    } else {
      var e := if x < s.value then Left else Right;
      var c := Child(s, e);
      RemovedAt(c, x);
      if RemovedPath(c, x) == [] {
        assert e == Right && q == [Right] && q[..|q| - 1] == [];
        assert SearchPath(c, x) == [] && SearchPath(s, x) == [Right];
        RemoveBelowTop(s, par, x);
      } else {
        RemoveDeeper(s, par, x, q);
      }
    }
  }

  /** `RemoveLinks` when the node taken out lies below a child of the top. */
  lemma {:induction false} RemoveDeeper<N>(s: Shape<N>, par: Option<N>, x: int, q: seq<Dir>)
    requires Distinct(s) && IsNode(s, SearchPath(s, x)) && x != s.value
    requires var c := Child(s, if x < s.value then Left else Right);
      IsNode(c, SearchPath(c, x)) && RemovedPath(c, x) != [] &&
      Sub(s, SearchPath(s, x)) == Sub(c, SearchPath(c, x))
    requires q == RemovedPath(s, x) && q != [] && q[|q| - 1] == Right
    requires IsNode(s, q) && IsNode(s, q[..|q| - 1]) && Sub(s, q).right.Leaf?
    ensures Unlinked(s, par, x, Sub(s, SearchPath(s, x)), Sub(s, q), Sub(s, q[..|q| - 1]).node)
    decreases s, 0
  {
    var e := if x < s.value then Left else Right;
    var c := Child(s, e);
    var p', q' := SearchPath(c, x), RemovedPath(c, x);
    RemovePaths(s, x, q);
    RemoveLinks(c, Some(s.node), x, q');
    TopKept(c, x);
    RemoveStep(s, par, x, e, Sub(c, p'), Sub(c, q'), Sub(c, q'[..|q'| - 1]).node);
  }

  /** The paths of `RemoveLinks` one level down. */
  lemma RemovePaths<N>(s: Shape<N>, x: int, q: seq<Dir>)
    requires s.Branch? && x != s.value && IsNode(s, SearchPath(s, x))
    requires var c := Child(s, if x < s.value then Left else Right);
      IsNode(c, SearchPath(c, x)) && RemovedPath(c, x) != [] &&
      Sub(s, SearchPath(s, x)) == Sub(c, SearchPath(c, x))
    requires q == RemovedPath(s, x) && q != [] && q[|q| - 1] == Right
    requires IsNode(s, q) && Sub(s, q).right.Leaf?
    ensures var c := Child(s, if x < s.value then Left else Right);
      var p', q' := SearchPath(c, x), RemovedPath(c, x);
      q'[|q'| - 1] == Right && IsNode(c, q') && IsNode(c, q'[..|q'| - 1]) &&
      Sub(s, q) == Sub(c, q') && Sub(s, q[..|q| - 1]) == Sub(c, q'[..|q'| - 1]) &&
      Sub(c, p').node in Nodes(c) && Sub(c, q').node in Nodes(c) && Sub(c, q'[..|q'| - 1]).node in Nodes(c) &&
      (Sub(c, q').left.Branch? ==> Sub(c, q').left.node in Nodes(c))
  {
    RemovedAt(s, x);
    var e := if x < s.value then Left else Right;
    var c := Child(s, e);
    var p', q' := SearchPath(c, x), RemovedPath(c, x);
    assert q == [e] + q' && q[1..] == q';
    DropLast(q);
    Parent(c, q');
    SubInside(c, q');
    SubInside(c, q'[..|q'| - 1]);
    SubInside(c, p');
    SubInside(Sub(c, q'), [Left]);
  }

  /** `x` at the top node, which has a right child. */
  lemma RemoveAtTop<N>(s: Shape<N>, par: Option<N>, x: int)
    requires s.Branch? && Distinct(s) && x == s.value && s.right.Branch?
    ensures var q := [Right] + Rightmost(s.right);
      IsNode(s, q) && IsNode(s, q[..|q| - 1]) &&
      Unlinked(s, par, x, s, Sub(s, q), Sub(s, q[..|q| - 1]).node)
  {
    var q := [Right] + Rightmost(s.right);
    DropLinks(s, par, MaxValue(s.right));
    assert q[1..] == Rightmost(s.right);
    assert MaxValue(s.right) == Sub(s, q).value;
    assert RemoveShape(s, x) == Branch(s.node, MaxValue(s.right), s.left, DropMax(s.right));
  }

  /** `x` in the right child of the top node, which has no right child. */
  lemma RemoveBelowTop<N>(s: Shape<N>, par: Option<N>, x: int)
    requires s.Branch? && Distinct(s) && x > s.value && s.right.Branch?
    requires x == s.right.value && s.right.right.Leaf?
    ensures Unlinked(s, par, x, s.right, s.right, s.node)
  {
    SpliceRight(s, par, s.value);
    RevalueSame(LinkMap(s, par), s.node);
  }

  lemma RevalueSame<N>(m: map<N, Links<N>>, k: N)
    requires k in m
    ensures Revalue(m, k, m[k].value) == m
  {
  }

  /** One level of `RemoveLinks` above the node holding `x`. */
  lemma RemoveStep<N>(s: Shape<N>, par: Option<N>, x: int, e: Dir, cs: Shape<N>, ks: Shape<N>, pn: N)
    requires s.Branch? && Distinct(s) && x != s.value && e == (if x < s.value then Left else Right)
    requires cs.Branch? && ks.Branch?
    requires RemoveShape(Child(s, e), x).Branch? && RemoveShape(Child(s, e), x).node == Child(s, e).node
    requires var sub := Nodes(Child(s, e));
      cs.node in sub && ks.node in sub && pn in sub && (ks.left.Branch? ==> ks.left.node in sub)
    requires Unlinked(Child(s, e), Some(s.node), x, cs, ks, pn)
    ensures Unlinked(s, par, x, cs, ks, pn)
  {
    var n := s.node;
    var lm, rm := LinkMap(s.left, Some(n)), LinkMap(s.right, Some(n));
    var top := Links(par, Top(s.left), Top(s.right), s.value);
    assert LinkMap(s, par) == lm + rm + map[n := top];
    var l := Top(ks.left);
    var c := Child(s, e);
    var a := if cs.right.Leaf? then LinkMap(c, Some(n)) else Revalue(LinkMap(c, Some(n)), cs.node, ks.value);
    if e == Left {
      assert RemoveShape(s, x) == Branch(n, s.value, RemoveShape(s.left, x), s.right);
      if cs.right.Branch? {
        RevalueInside(lm, rm, n, top, cs.node, ks.value);
      }
      UnlinkLeft(a, rm, n, top, ks.node, pn, l);
    } else {
      assert RemoveShape(s, x) == Branch(n, s.value, s.left, RemoveShape(s.right, x));
      if cs.right.Branch? {
        RevalueInside(lm, rm, n, top, cs.node, ks.value);
      }
      UnlinkRight(lm, a, n, top, ks.node, pn, l);
    }
  }

  /** With a larger right subtree the maximum moved up sits above smaller
      values of that subtree: removing 2 from 2(1, 4(3, 5)) puts 5 at the
      top and leaves 4 in its right subtree, although `remove` does not
      panic there. */
  lemma RemoveBreaksOrder()
    ensures var s: Shape<int> := Branch(2, 2, Branch(1, 1, Leaf, Leaf),
                                   Branch(4, 4, Branch(3, 3, Leaf, Leaf), Branch(5, 5, Leaf, Leaf)));
      Ordered(s) && RemoveSafe(s, 2) &&
      RemoveShape(s, 2) == Branch(2, 5, Branch(1, 1, Leaf, Leaf), Branch(4, 4, Branch(3, 3, Leaf, Leaf), Leaf)) &&
      !Ordered(RemoveShape(s, 2))
  {
    var s: Shape<int> := Branch(2, 2, Branch(1, 1, Leaf, Leaf),
                           Branch(4, 4, Branch(3, 3, Leaf, Leaf), Branch(5, 5, Leaf, Leaf)));
    assert Rightmost(s.right) == [Right];
    assert RemovedPath(s, 2) == [Right, Right];
    assert [Right, Right][..1] == [Right];
    assert 4 in Elems(RemoveShape(s, 2).right);
  }

  /** A duplicate value is reachable: after the order-breaking removal of 2
      above, removing 5, inserting 3 and 0 and removing 1 (each removal one
      `RemoveSafe` admits) leaves 4(3(0, _), 3), whose two nodes hold 3. */
  lemma DuplicateReached()
    ensures var t1: Shape<int> := Branch(2, 5, Branch(1, 1, Leaf, Leaf), Branch(4, 4, Branch(3, 3, Leaf, Leaf), Leaf));
      var t2 := RemoveShape(t1, 5);
      var t3 := InsertShape(InsertShape(t2, 3, 13), 0, 0);
      RemoveSafe(t1, 5) && RemoveSafe(t3, 1) &&
      RemoveShape(t3, 1) == Branch(2, 4, Branch(1, 3, Branch(0, 0, Leaf, Leaf), Leaf), Branch(3, 3, Leaf, Leaf))
  {
    var t1: Shape<int> := Branch(2, 5, Branch(1, 1, Leaf, Leaf), Branch(4, 4, Branch(3, 3, Leaf, Leaf), Leaf));
    assert SearchPath(t1, 5) == [];
    assert Rightmost(t1.right) == [];
    assert RemovedPath(t1, 5) == [Right];
    assert [Right][..0] == [];
    var t2 := RemoveShape(t1, 5);
    assert t2 == Branch(2, 4, Branch(1, 1, Leaf, Leaf), Branch(3, 3, Leaf, Leaf));
    var t3 := InsertShape(InsertShape(t2, 3, 13), 0, 0);
    assert t3 == Branch(2, 4, Branch(1, 1, Branch(0, 0, Leaf, Leaf), Branch(13, 3, Leaf, Leaf)), Branch(3, 3, Leaf, Leaf));
    assert SearchPath(t3.left, 1) == [];
    assert SearchPath(t3, 1) == [Left];
    assert Rightmost(Sub(t3, [Left]).right) == [];
    assert RemovedPath(t3, 1) == [Left, Right];
    assert [Left, Right][..1] == [Left];
  }

  /** On that tree the walk cycles: from the smallest node it yields 0 and
      3, then alternates between the root 4 and its right child 3, which
      `is_left_child` mistakes for the left one. A count of 4 runs out on
      the fifth `next`. */
  lemma DuplicateCycle()
    ensures var u: Shape<int> := Branch(2, 4, Branch(1, 3, Branch(0, 0, Leaf, Leaf), Leaf), Branch(3, 3, Leaf, Leaf));
      Size(u) == 4 && Leftmost(u) == [Left, Left] &&
      NextPath(u, [Left, Left]) == Some([Left]) && NextPath(u, [Left]) == Some([]) &&
      NextPath(u, []) == Some([Right]) && NextPath(u, [Right]) == Some([])
  {
    var u: Shape<int> := Branch(2, 4, Branch(1, 3, Branch(0, 0, Leaf, Leaf), Leaf), Branch(3, 3, Leaf, Leaf));
    assert Leftmost(u.left) == [Left];
    assert [Left, Left][..1] == [Left];
    assert [Left][..0] == [];
    assert [] + [Right] + [] == [Right];
    assert [Right][..0] == [];
    assert IsLeftChildAt(u, [Right]) == Some(true);
  }

  /** The remove test: taking 7 out of the tree of 1, 5, 3, 7 is safe and
      leaves an ordered tree the iterator walks completely, holding 1, 3, 5
      in order. */
  lemma TestRemove<N>(a: N, b: N, c: N, d: N)
    ensures RemoveSafe(TestShape(a, b, c, d), 7)
    ensures Ordered(RemoveShape(TestShape(a, b, c, d), 7)) && Fine(RemoveShape(TestShape(a, b, c, d), 7), true)
    ensures InOrder(RemoveShape(TestShape(a, b, c, d), 7)) == [1, 3, 5]
  {
    var l3, l7 := Branch(c, 3, Leaf, Leaf), Branch(d, 7, Leaf, Leaf);
    var s := TestShape(a, b, c, d);
    assert s == Branch(a, 1, Leaf, Branch(b, 5, l3, l7));
    assert SearchPath(l7, 7) == [];
    assert SearchPath(Branch(b, 5, l3, l7), 7) == [Right];
    assert SearchPath(s, 7) == [Right, Right];
    assert Sub(s, [Right, Right]) == l7;
    assert RemovedPath(s, 7) == [Right, Right];
    assert [Right, Right][..1] == [Right];
    var r := Branch(b, 5, l3, Leaf);
    assert RemoveShape(l7, 7) == Leaf;
    assert RemoveShape(Branch(b, 5, l3, l7), 7) == r;
    assert RemoveShape(s, 7) == Branch(a, 1, Leaf, r);
    assert Elems(l3) == {3} && Elems(r) == {3, 5};
    assert InOrder(l3) == [3] && InOrder(r) == [3, 5];
    assert Fine(l3.left, false) && Fine(r.right, true) && Fine(l3, false);
    assert Ordered(l3) && Ordered(r) && Fine(r, true);
  }
}
