# Rust tutorial solutions, modelled in Dafny

This project models three of the worked solutions of a Rust tutorial and
proves what each of them promises.

- **`BigUInt`**, an arbitrary-precision unsigned integer
  (`limbs.dfy`, `big_uint.dfy`, `decimal.dfy`, `big_uint_text.dfy`).
  - A number is a little-endian vector of 64-bit limbs. Its value is
    Σ inner[i]·2^(64·i), and zero is the empty vector.
  - Representation: a `BigUInt` datatype over `seq<Limb>`, with `Limb` the
    naturals below 2^64. `Limbs.Value` gives the number it denotes.
    `Limbs.Canonical` says the vector has no high zero limb.
  - The source's derived equality and its length-first `partial_cmp` only
    agree with the numbers on canonical vectors, so most contracts are
    conditioned on `Canonical`.
  - Operations: the in-place shifts `shl_once`/`shr_once`, and `add`, `sub`,
    `mul`, `div_rem`, `div` and `rem`. Each is a method whose loop is the
    source's carry, borrow or shift loop, proved against `Value`.
  - Text: the decimal parser (`from_str`) is proved against a
    character-level reference `Decimal.ParseSpec`. The base-10^18 printer
    (`Display`) is proved against `Decimal.DecimalString`. Printing and
    parsing back gives the number again.
- **Fibonacci, two ways** (`fibonacci.dfy`).
  - The two-variable loop `fib_loop` and the memoised recursion `fib_recur`
    both compute `Fib`, the mathematical sequence.
  - `usize` is 64 bits. Its overflow panic is an explicit `AddOverflow`
    result.
  - The memo vector is an `array` that `Inner` writes in place. The memo
    invariant: every entry is 0 or the right Fibonacci number.
- **Binary search tree with parent back-links and an in-order iterator**
  (`tree_shape.dfy`, `tree_remove.dfy`, `tree.dfy`).
  - Heap objects:
    - `Node` is a class with `value`, `parent`, `left` and `right` fields.
    - `Tree` holds `root` and `len`.
    - `Iter` holds the current `node` and a count `len`.
  - Every operation is a method that walks and rewires nodes as the source
    does.
  - Ghost state: each tree carries a ghost `Shape`, the abstract tree
    labelled with its node objects, and `Linked` ties every node's fields to
    it.
  - Pure specification (`TreeShape`, `TreeRemove`): the search path, the
    insert and remove shapes, and the iterator's successor walk `NextPath`.
    The heap methods are proved against these, and the search-tree
    properties are proved about them.
  - The tree's quirks are kept:
    - `insert` counts a duplicate in `len`.
    - `is_left_child` answers `None` when the parent's left slot is empty,
      so the iterator can stop early (`TreeShape.EarlyStop`).
    - `is_left_child` compares values, so on a tree holding a value twice
      the iterator can cycle until its count underflows; such a tree is
      reachable after an order-breaking `remove`
      (`TreeRemove.DuplicateReached`, `TreeRemove.DuplicateCycle`).
    - `remove` replaces a node with a right child by the *largest* value of
      its right subtree, whether or not it has a left child, which breaks the search order as soon as that
      subtree has two or more nodes (`TreeRemove.RemoveBreaksOrder`). The
      order is kept when the right subtree has at most one node
      (`TreeRemove.RemoveOrdered`); the exercise's own removal is one of
      those cases.
  - `remove` panics on most inputs: a RefCell double borrow, or an unwrap
    of `None`. It is modelled on these inputs (`TreeRemove.RemoveSafe`),
    where it does not panic:
    - the value is absent; or
    - the node taken out is the right child of a parent whose left slot
      holds another value.
    One input outside them does not panic either: a right child whose left
    sibling holds the same value (see "## Left out").

Values in the tree are `int`, standing for the source's generic `T: Ord`.

## Model

| member | source | states |
|---|---|---|
| BigUnsigned.Zero | solutions/class1/c-big-uint-sol/src/big_uint.rs:31-33 | zero is a canonical vector of value 0 |
| BigUnsigned.One | solutions/class1/c-big-uint-sol/src/big_uint.rs:35-37 | one is a canonical vector of value 1 |
| BigUnsigned.From | solutions/class1/c-big-uint-sol/src/big_uint.rs:407-423 | one limb of value `x`; canonical exactly when `x` is not 0, so `From(0)` is the one non-canonical constructor |
| BigUnsigned.OverflowingAdd | solutions/class1/c-big-uint-sol/src/big_uint.rs:157-161 | the wrapped limb plus 2^64 when the carry is set equals the exact sum |
| BigUnsigned.OverflowingSub | solutions/class1/c-big-uint-sol/src/big_uint.rs:203-207 | the wrapped limb minus 2^64 when the borrow is set equals the exact difference |
| BigUnsigned.CmpFromTopIsNumeric | solutions/class1/c-big-uint-sol/src/big_uint.rs:359-370 | comparing equal-length vectors from the top limb down agrees with comparing their values, and answers Equal exactly on identical vectors |
| BigUnsigned.CmpIsNumeric | solutions/class1/c-big-uint-sol/src/big_uint.rs:357-373 | `Cmp`, the model of `partial_cmp` (length first, then limbs from the top), answers Equal exactly when the derived equality holds, and on canonical operands it agrees with numeric order |
| BigUnsigned.EqualityIsNumeric | solutions/class1/c-big-uint-sol/src/big_uint.rs:22-28 | on canonical vectors the derived structural equality is equality of values |
| BigUnsigned.ShlOnce | solutions/class1/c-big-uint-sol/src/big_uint.rs:39-53 | the value doubles; the vector keeps its length or gains a top limb 1; canonical stays canonical |
| BigUnsigned.ShrOnce | solutions/class1/c-big-uint-sol/src/big_uint.rs:55-69 | the value is halved, rounding down; the vector does not grow; canonical stays canonical |
| BigUnsigned.Add | solutions/class1/c-big-uint-sol/src/big_uint.rs:147-173 | value(a+b) = value(a)+value(b); the length is the longer operand's, or one more with a final carry limb 1; canonical when the longer operand is |
| BigUnsigned.Sub | solutions/class1/c-big-uint-sol/src/big_uint.rs:193-219 | zero whenever `a <= b` by `partial_cmp`, else the difference (wrapped modulo 2^(64·len a) when a non-canonical `a` is smaller in value); always canonical; on canonical operands exactly the saturating difference |
| BigUnsigned.PopZeros | solutions/class1/c-big-uint-sol/src/big_uint.rs:213-215 | removing the high zero limbs keeps the value, gives a canonical prefix, and drops only zeros |
| BigUnsigned.ScaleLimbs | solutions/class1/c-big-uint-sol/src/big_uint.rs:243-256 | one row of the schoolbook product: value x·value(a), the same length or one more with a non-zero carry limb |
| BigUnsigned.Mul | solutions/class1/c-big-uint-sol/src/big_uint.rs:238-266 | value(a·b) = value(a)·value(b); a left operand without limbs yields `len(b)-1` zero limbs; canonical operands give a canonical product except in that case |
| BigUnsigned.MulZeroQuirk | solutions/class1/c-big-uint-sol/src/big_uint.rs:238-266 | zero times a two-limb number is `[0]`: value 0, yet unequal to `zero()` and ranked above it by `partial_cmp` |
| BigUnsigned.MulCanonical | solutions/class1/c-big-uint-sol/src/big_uint.rs:238-266 | the product with a zero left operand answered by `zero()`: the right value, and canonical for canonical operands |
| BigUnsigned.DivRem | solutions/class1/c-big-uint-sol/src/big_uint.rs:270-298 | division by a divisor without limbs is the `DivisionByZero` failure and nothing else is; `(0, a)` when `a < b` by `partial_cmp`; the quotient is canonical for every operand; on canonical operands `a = q·b + r` with `r < b`, and the remainder is canonical too |
| BigUnsigned.LongDivision | solutions/class1/c-big-uint-sol/src/big_uint.rs:276-297 | doubling the divisor past `a`, then halving it back while subtracting, leaves a canonical quotient, and on canonical operands quotient and remainder with `a = q·b + r`, `r < b` |
| BigUnsigned.HalveDown | solutions/class1/c-big-uint-sol/src/big_uint.rs:286-295 | the halving loop keeps the quotient canonical; on canonical operands, from `a < b·2^k` and shift `2^k` it reaches `a = q·b + r`, `r < b` |
| BigUnsigned.TakeOffIfFits | solutions/class1/c-big-uint-sol/src/big_uint.rs:287-290 | one conditional subtraction keeps a canonical quotient canonical; on canonical operands it keeps `a = q·b + r` and brings `r` below the shifted divisor |
| BigUnsigned.Div | solutions/class1/c-big-uint-sol/src/big_uint.rs:317-320 | `DivisionByZero` exactly for a divisor without limbs; zero when `a < b`; a canonical quotient for every operand, and on canonical operands the floor quotient |
| BigUnsigned.Rem | solutions/class1/c-big-uint-sol/src/big_uint.rs:340-343 | `DivisionByZero` exactly for a divisor without limbs; `a` when `a < b`; on canonical operands the remainder |
| BigUnsigned.DivModUnique | solutions/class1/c-big-uint-sol/src/big_uint.rs:517-576 | the pair `div_rem` returns is the only one with `a = q·b + r`, `r < b`, so `/` and `%` agree with integer division |
| Decimal.DigitOf | solutions/class1/c-big-uint-sol/src/big_uint.rs:118-120 | a digit character's value is below 10 and prints back as the same character |
| Decimal.Strip | solutions/class1/c-big-uint-sol/src/big_uint.rs:117 | removing the separators `_` and `,` leaves no separator and never lengthens the text |
| Decimal.SeparatorsIgnored | solutions/class1/c-big-uint-sol/src/big_uint.rs:97-117 | a text whose first character is a digit other than `0` parses to the same outcome with its separators removed |
| Decimal.ParseDecimal | solutions/class1/c-big-uint-sol/src/big_uint.rs:105-128 | the decimal spelling of every number parses back to that number |
| Decimal.DecimalOfDigits | solutions/class1/c-big-uint-sol/src/big_uint.rs:105-128 | every digit string without a leading zero (or `"0"`) parses, and printing the result gives the string back |
| Decimal.DecimalStringShape | solutions/class1/c-big-uint-sol/src/big_uint.rs:381-382 | the decimal spelling starts with `0` only for zero and has one digit exactly below ten |
| Decimal.RenderChunks | solutions/class1/c-big-uint-sol/src/big_uint.rs:392-401 | base-10^18 chunks printed top first, the first unpadded and the rest padded to 18 digits, spell the number in decimal |
| Decimal.AppendPadded | solutions/class1/c-big-uint-sol/src/big_uint.rs:398 | appending a chunk padded to `w` digits spells `n·10^w + c` |
| Decimal.ChunkWidth | solutions/class1/c-big-uint-sol/src/big_uint.rs:384 | the chunk modulus 10^18 has 18 digits of padding |
| Decimal.TestedText | solutions/class1/c-big-uint-sol/src/big_uint.rs:105-128 | `""` is Empty, `"00"` is LeadingZero, `"_1"` is NotStartingWithDigit, `"1a"` is InvalidCharacter, `"1,0_0"` is 100, and 0 and 1 print as `"0"` and `"1"` |
| BigUIntText.FromStr | solutions/class1/c-big-uint-sol/src/big_uint.rs:105-128 | the parser fails exactly when the reference parse fails and with the same error; on success the value is the digits' decimal value, built by a·10+d, and canonical |
| BigUIntText.ToString | solutions/class1/c-big-uint-sol/src/big_uint.rs:376-405 | for a canonical vector, and for the `[0]` of `From(0)`, the printed text is the decimal spelling of the value, `"0"` for zero; every vector is accepted |
| BigUIntText.CollectChunks | solutions/class1/c-big-uint-sol/src/big_uint.rs:384-390 | the chunk loop ends for every vector with limbs and collects at least one chunk; for a canonical vector or `[0]` the chunks, rendered, spell the number in decimal |
| BigUIntText.ChunkStep | solutions/class1/c-big-uint-sol/src/big_uint.rs:387-389 | one pass of the chunk loop takes off the lowest base-10^18 digit and shrinks the number |
| BigUIntText.PrintThenParse | solutions/class1/c-big-uint-sol/src/big_uint.rs:431-444 | parsing the printed form of a canonical number gives the same number |
| BigUIntText.ParseThenPrint | solutions/class1/c-big-uint-sol/src/big_uint.rs:436-437 | `from_str` then `to_string` fails exactly when the parse fails, with its error; otherwise the text comes back with its `_` and `,` separators removed |
| Decimal.ParsedPrints | solutions/class1/c-big-uint-sol/src/big_uint.rs:97-128 | the decimal spelling of whatever a text parses to is that text without its separators |
| Decimal.StripAppend | solutions/class1/c-big-uint-sol/src/big_uint.rs:116-117 | the separators of a concatenation are removed piece by piece |
| Decimal.GroupedTextPrints | solutions/class1/c-big-uint-sol/src/big_uint.rs:436-437 | `"1,000,000,000,000,000,000,000,000"` parses, and prints as `"1000000000000000000000000"` |
| Fibonacci.FibLoop | solutions/class1/b-fibonacci-sol/src/main.rs:34-44 | `F(n)` when the loop's last sum `F(n+1)` fits in 64 bits, otherwise the overflow panic |
| Fibonacci.Inner | solutions/class1/b-fibonacci-sol/src/main.rs:56-65 | keeps the memo invariant (every entry 0 or its Fibonacci number); returns `F(n)` unless it overflows; stores `F(n)` at `n >= 2` |
| Fibonacci.FibRecur | solutions/class1/b-fibonacci-sol/src/main.rs:55-70 | `F(n)` when it fits in 64 bits, otherwise the overflow panic |
| Fibonacci.LoopAgreesWithRecursion | solutions/class1/b-fibonacci-sol/src/main.rs:34-70 | whenever the loop succeeds the recursion returns the same value, and when the recursion overflows the loop does too |
| Fibonacci.FibMonotone | solutions/class1/b-fibonacci-sol/src/main.rs:34-44 | the sequence never decreases |
| Fibonacci.TestedValues | solutions/class1/b-fibonacci-sol/src/main.rs:84-114 | F(0..7) are 0,1,1,2,3,5,8,13; F(50) = 12,586,269,025; F(70) = 190,392,490,709,135 |
| Fibonacci.OverflowWindow | solutions/class1/b-fibonacci-sol/src/main.rs:38 | F(93) is the last Fibonacci number that fits in 64 bits, so `fib_loop` works up to n = 92 and `fib_recur` up to n = 93 |
| BinaryTree.Node.Root | solutions/class2/a-binary-tree-sol/src/tree.rs:24-31 | a new node holds the value, with no parent and no children |
| BinaryTree.Node.WithParent | solutions/class2/a-binary-tree-sol/src/tree.rs:33-40 | a new node holds the value and links to the parent, with no children |
| BinaryTree.MinNode | solutions/class2/a-binary-tree-sol/src/tree.rs:43-53 | following left links ends at the node of the left-most path below the start |
| BinaryTree.IsLeftChild | solutions/class2/a-binary-tree-sol/src/tree.rs:62-73 | defined exactly when there is a parent with a non-empty left slot; `Some(true)` means that left child holds the same value |
| BinaryTree.IsLeftChildNode | solutions/class2/a-binary-tree-sol/src/tree.rs:62-73 | on a linked tree the field-level answer equals `IsLeftChildAt` on the shape |
| TreeShape.LeftChildAt | solutions/class2/a-binary-tree-sol/src/tree.rs:62-73 | on an ordered tree `is_left_child` is None for an empty left slot, else whether the node is that left child |
| BinaryTree.Descend | solutions/class2/a-binary-tree-sol/src/tree.rs:133-153 | the search loop stops at the node on the search path; it finds a node exactly when the search path ends at one, and otherwise stops at the parent of the empty slot |
| BinaryTree.Tree.constructor | solutions/class2/a-binary-tree-sol/src/tree.rs:124-126 | an empty tree with count 0 |
| BinaryTree.Tree.Len | solutions/class2/a-binary-tree-sol/src/tree.rs:128-130 | the count is never below the number of nodes |
| BinaryTree.Tree.Contains | solutions/class2/a-binary-tree-sol/src/tree.rs:133-153 | true exactly when the search path ends at a node; on an ordered tree, exactly when the value is stored |
| TreeShape.SearchFinds | solutions/class2/a-binary-tree-sol/src/tree.rs:137-149 | on an ordered tree the search path ends at a node exactly when the value is stored, and that node holds it |
| BinaryTree.Tree.Insert | solutions/class2/a-binary-tree-sol/src/tree.rs:158-184 | the count always grows by one; a present value leaves nodes and shape alone and answers false; otherwise a fresh node hangs where the search stopped (the root of an empty tree) and the answer is true; order and contents `+ {x}` are kept |
| BinaryTree.Tree.Sprout | solutions/class2/a-binary-tree-sol/src/tree.rs:171-178 | a new leaf, linked to its parent, fills the empty slot at the end of the search path |
| BinaryTree.Plant | solutions/class2/a-binary-tree-sol/src/tree.rs:180-183 | the first node of an empty tree is a one-node ordered tree |
| BinaryTree.Grow | solutions/class2/a-binary-tree-sol/src/tree.rs:171-178 | the new leaf's links make the inserted shape linked, with one node more |
| BinaryTree.Hang | solutions/class2/a-binary-tree-sol/src/tree.rs:172-177 | setting the parent's slot attaches the new node in the link map |
| TreeShape.InsertContents | solutions/class2/a-binary-tree-sol/src/tree.rs:158-184 | on an ordered tree inserting adds exactly `x`, keeps order, adds one node unless `x` is present, and changes nothing when it is |
| TreeShape.InsertPresent | solutions/class2/a-binary-tree-sol/src/tree.rs:165-168 | when the search path ends at a node, the shape is unchanged |
| TreeShape.InsertNodes | solutions/class2/a-binary-tree-sol/src/tree.rs:171-178 | a new node joins the nodes exactly once and the size grows by one |
| TreeShape.InsertedAt | solutions/class2/a-binary-tree-sol/src/tree.rs:171-178 | the new node sits at the end of the old search path |
| TreeShape.InsertLinks | solutions/class2/a-binary-tree-sol/src/tree.rs:171-178 | the link map of the inserted shape is the old one with the new node attached below the search's last node |
| TreeShape.InsertsSnoc | solutions/class2/a-binary-tree-sol/src/tree.rs:337-347 | inserting a sequence of values one at a time is the inserts of the prefix followed by one insert |
| BinaryTree.Tree.Remove | solutions/class2/a-binary-tree-sol/src/tree.rs:189-255 | removed exactly when the search path ends at a node; the new shape is `RemoveShape`; the count drops by one exactly then; on an ordered tree the values lose exactly `x` |
| BinaryTree.Tree.Excise | solutions/class2/a-binary-tree-sol/src/tree.rs:198-239 | taking out the found node leaves the linked `RemoveShape`, one node fewer and the count one less |
| BinaryTree.Unhook | solutions/class2/a-binary-tree-sol/src/tree.rs:199-234 | the right-most walk, value swap and relinking leave the heap linked as `RemoveShape` |
| BinaryTree.MaxNode | solutions/class2/a-binary-tree-sol/src/tree.rs:199-210 | following right links ends at the node of the right-most path below the start |
| BinaryTree.SwapValues | solutions/class2/a-binary-tree-sol/src/tree.rs:212 | the two values trade places and no link changes |
| BinaryTree.Detach | solutions/class2/a-binary-tree-sol/src/tree.rs:219-234 | the node's parent takes its left subtree in the right slot and that subtree's root gets the parent |
| TreeRemove.UnhookPlan | solutions/class2/a-binary-tree-sol/src/tree.rs:198-234 | which nodes the relinking touches, and that unlinking the removed node from the revalued link map is the link map of `RemoveShape` |
| TreeRemove.RemoveAbsent | solutions/class2/a-binary-tree-sol/src/tree.rs:242-253 | removing a value the search does not find changes nothing |
| TreeRemove.RemoveNodes | solutions/class2/a-binary-tree-sol/src/tree.rs:198-239 | exactly the node taken out leaves the tree, nodes stay distinct and the size drops by one |
| TreeRemove.RemoveFound | solutions/class2/a-binary-tree-sol/src/tree.rs:198-239 | on the inputs modelled, the root is kept and one node goes |
| TreeRemove.DropMaxContents | solutions/class2/a-binary-tree-sol/src/tree.rs:199-212 | cutting the right-most node out of a subtree removes its value, its node and one from the size, and on an ordered subtree that value is the maximum |
| TreeRemove.RemoveElems | solutions/class2/a-binary-tree-sol/src/tree.rs:189-255 | on an ordered tree with distinct nodes the values lose exactly `x` |
| TreeRemove.RemoveOrdered | solutions/class2/a-binary-tree-sol/src/tree.rs:198-239 | removing keeps the order when the found node's right subtree has at most one node |
| TreeRemove.RemoveBreaksOrder | solutions/class2/a-binary-tree-sol/src/tree.rs:199-212 | on the ordered tree 2(1, 4(3, 5)), removing 2 puts 5 at the root above 4 and 3, which is no longer ordered |
| TreeRemove.DuplicateReached | solutions/class2/a-binary-tree-sol/src/tree.rs:199-237 | after the order-breaking removal of 2, removing 5, inserting 3 and 0 and removing 1 are all admitted by `RemoveSafe` and leave a tree whose two nodes hold 3 |
| TreeRemove.DuplicateCycle | solutions/class2/a-binary-tree-sol/src/tree.rs:294-326 | on that tree the walk goes 0, 3, 4, then back and forth between the root and its right child, so its count of 4 runs out on the fifth `next` |
| TreeRemove.TestRemove | solutions/class2/a-binary-tree-sol/src/tree.rs:349-360 | removing 7 from the tree of 1, 5, 3, 7 is allowed, keeps it ordered and leaves the in-order values 1, 3, 5 |
| BinaryTree.Tree.Iter | solutions/class2/a-binary-tree-sol/src/tree.rs:258-264 | the iterator starts at the left-most node, of rank 0, with the tree's count; no node for an empty tree |
| BinaryTree.Iter.Next | solutions/class2/a-binary-tree-sol/src/tree.rs:294-326 | fails with the `usize` underflow exactly when a node is left and the count is zero, which never happens on an ordered tree; otherwise yields the value of rank `Index(path)` in order, decrements the count and moves along `NextPath`; on an ordered tree to the next rank, and on a tree it walks completely it stops after the last |
| BinaryTree.Iter.SizeHint | solutions/class2/a-binary-tree-sol/src/tree.rs:328-330 | both bounds are the count, and on an ordered tree it covers the nodes still ahead |
| BinaryTree.ClimbFrom | solutions/class2/a-binary-tree-sol/src/tree.rs:305-319 | the climb over parent links stops where `Climb` says |
| BinaryTree.Advance | solutions/class2/a-binary-tree-sol/src/tree.rs:301-319 | the next node is the left-most node of the right subtree, else the end of the climb; exactly `NextPath` |
| TreeShape.NextSound | solutions/class2/a-binary-tree-sol/src/tree.rs:301-319 | on an ordered tree the successor walk lands on the node of the next rank |
| TreeShape.NextComplete | solutions/class2/a-binary-tree-sol/src/tree.rs:301-319 | on an ordered tree the walk covers completely, it ends only at the last rank |
| TreeShape.ClimbSound | solutions/class2/a-binary-tree-sol/src/tree.rs:305-319 | a climb that finds a parent finds the node right after the subtree it left |
| TreeShape.ClimbComplete | solutions/class2/a-binary-tree-sol/src/tree.rs:305-319 | a climb that finds nothing started from the last subtree |
| TreeShape.InOrderSorted | solutions/class2/a-binary-tree-sol/src/tree.rs:294-326 | the in-order sequence of an ordered tree is strictly increasing and holds exactly its values |
| TreeShape.EarlyStop | solutions/class2/a-binary-tree-sol/src/tree.rs:305-319 | inserting 10, 1, 5 gives an ordered tree of 1, 5, 10, but the walk stops after 5, because 5's parent 1 has an empty left slot and `is_left_child` answers None |
| BinaryTree.Collect | solutions/class2/a-binary-tree-sol/src/tree.rs:346 | collecting an iterator on an ordered tree it walks completely yields the in-order values from its position on |
| TreeShape.TestInserts | solutions/class2/a-binary-tree-sol/src/tree.rs:337-345 | inserting 1, 5, 3, 7 puts 1 at the root, 5 right of it, and 3 and 7 as the children of 5 |
| TreeShape.TestTree | solutions/class2/a-binary-tree-sol/src/tree.rs:337-347 | that tree is ordered, walked completely, and its in-order values are 1, 3, 5, 7 |
| BinaryTree.Planted | solutions/class2/a-binary-tree-sol/src/tree.rs:339-344 | inserting distinct values one after the other into a new tree gives the shape of those inserts and a count of their number |
| BinaryTree.InsertTest | solutions/class2/a-binary-tree-sol/src/tree.rs:337-347 | inserting 1, 5, 3, 7 and collecting the iterator yields 1, 3, 5, 7 |
| BinaryTree.RemoveTest | solutions/class2/a-binary-tree-sol/src/tree.rs:349-360 | inserting 1, 5, 3, 7, removing 7 and collecting yields 1, 3, 5 |

## Left out

- Arithmetic width. `usize` and `u64` are 64 bits. Fibonacci's additions and the iterator's `self.len -= 1` state their overflow as a result, the panic of a debug build; a release build wraps around instead, and that is not modelled. The tree's `len` is a `nat`, so the wrap-around of `insert`'s `len += 1` at `usize::MAX` is not modelled.
- BinaryTree.Tree.Remove: requires `RemoveSafe`, a set of inputs on which the source does not panic. Among the other found values, three cases panic. The node taken out may be the root, which line 236 borrows a second time. It may be its parent's left child, which `is_left_child` at line 223 borrows a second time. Or its parent's left slot may be empty, and the unwrap at line 223 fails. One more case does not panic and is left out too: the node taken out is a right child and its parent's left child holds the same value, which needs `x` twice in the tree. There `is_left_child` answers `Some(true)`, and line 224 overwrites the parent's left slot with the removed node's left subtree.
- BinaryTree.Tree.Remove: on an unordered tree it promises the new shape but not the contents. `RemoveShape` itself keeps the source's order-breaking replacement by the right subtree's maximum (`TreeRemove.RemoveBreaksOrder`). The order is proved kept only when the right subtree has at most one node.
- BinaryTree.Node: the weak parent link is a plain nullable reference. `Rc`, `RefCell` borrow tracking, `Weak::upgrade` and reference counts are not modelled, and neither are the shallow `Clone` and `Debug` impls.
- The `unsafe` lifetime extension in `Iter::next` is not modelled: `Next` returns the value itself.
- BinaryTree.IsLeftChild: its `Some(true)` answer compares values rather than nodes. It mislabels a right child only when the tree holds a duplicate value, and the shape-level lemmas about order assume distinct values; `TreeRemove.DuplicateCycle` shows one tree where it does.
- BinaryTree.Planted: builds trees from distinct values only, which is what the source's tests insert.
- The tree is generic over `T: Ord`; the model fixes `T` to `int`.
- BigUnsigned.DivRem (and Div, Rem): requires a divisor that is non-zero in value, or one that `partial_cmp` ranks above `a`. A divisor `[0]` (from `From(0)`) with `a >= [0]` makes the source's doubling loop run forever, since doubling `[0]` gives `[0]`.
- BigUnsigned.DivRem: the quotient and remainder facts are stated for canonical operands only. On non-canonical ones, `partial_cmp` does not follow the values.
- BigUIntText.ToString (and CollectChunks): the text is promised only for canonical vectors and for `[0]`. A vector with two or more zero limbs, such as `[0, 0]` from `zero()` times 2^128 (see the mul finding below), is ranked above 10^18 by `partial_cmp` although its value is 0. The source's long division then runs on it, and the `sub` of lines 193-219, whose limbs wrap, makes the remainder; the digits printed are not the decimal spelling of the value, and the model does not say which they are.
- The `ParseBigUIntError` display strings and the `Formatter` plumbing of `Display` are left out. `ToString` returns the text directly.
- The `Into<&BigUInt>` operator overloads are modelled as plain two-argument methods.
- The command-line `main` of the Fibonacci program is left out: argument parsing and printing.

## Findings

| source | as written | input that shows it | evidently intended | confidence | as-written member | corrected member |
|---|---|---|---|---|---|---|
| solutions/class1/c-big-uint-sol/src/big_uint.rs:238-266 | `mul` with a left operand that has no limbs adds one zero-shifted empty row per limb of the right operand, leaving `len(rhs)-1` zero limbs | `zero() * [0, 1]` (zero times 2^64) gives `[0]`, which is unequal to `zero()` and which `partial_cmp` ranks above it | a zero product is the canonical `zero()` | not executed | BigUnsigned.MulZeroQuirk | BigUnsigned.MulCanonical |
