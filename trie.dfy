/** The 32-way trie behind the persistent vector: its nodes and the pure, path-copying
    functions that build new trees out of old ones (src/pvector.py). */
module Trie {
  import opened Bits

  /** BRANCH_FACTOR, BIT_MASK and SHIFT of src/pvector.py. */
  const BranchFactor: nat := 32
  const BitMask: nat := 31
  const Shift: nat := 5

  /** A node of the trie. In src/pvector.py both kinds are Python lists: a node at level 0 holds
      values, a node at a higher level holds child nodes. Nodes are never changed after they
      are built (every write copies), so a node is a value. */
  datatype Node<T> = Leaf(values: seq<T>) | Branch(children: seq<Node<T>>)

  /** The values of a node from left to right: what `_fill_list` appends for it. */
  function Elements<T>(n: Node<T>): seq<T>
  {
    match n
    case Leaf(vs) => vs
    case Branch(cs) => ElementsOf(cs)
  }

  /** The values of a row of sibling nodes, left to right. */
  function ElementsOf<T>(cs: seq<Node<T>>): seq<T>
  {
    if cs == [] then [] else ElementsOf(cs[..|cs| - 1]) + Elements(cs[|cs| - 1])
  }

  ghost function Size<T>(n: Node<T>): nat
  {
    |Elements(n)|
  }

  /** `(i >> level) & BIT_MASK`: the child slot that index `i` takes in a node at `level`. */
  function ChildIndex(i: nat, level: nat): nat
  {
    Shr(i, level) % BranchFactor
  }

  /** A non-root subtree at `level` (a multiple of SHIFT): leaves hold exactly 32 values and sit
      at level 0, a branch has 1 to 32 children, and every child but the last is full. */
  ghost predicate Dense<T>(n: Node<T>, level: nat)
  {
    if level == 0 then
      n.Leaf? && |n.values| == BranchFactor
    else
      && level >= Shift && n.Branch? && 0 < |n.children| <= BranchFactor
      && Packed(n.children, level - Shift)
  }

  /** Siblings at `level`: each is dense, and all but the last hold the full 2^(level+5) values. */
  ghost predicate Packed<T>(cs: seq<Node<T>>, level: nat)
  {
    && (forall c :: 0 <= c < |cs| ==> Dense(cs[c], level))
    && (forall c :: 0 <= c < |cs| - 1 ==> Size(cs[c]) == Pow2(level + Shift))
  }

  /** The root of a vector with shift `shift`: like a dense node, but it may be empty. */
  ghost predicate RootShape<T>(root: Node<T>, shift: nat)
  {
    && shift >= Shift && shift % Shift == 0
    && root.Branch? && |root.children| <= BranchFactor
    && Packed(root.children, shift - Shift)
  }

  /** The invariants the vector's fields keep: the root is well shaped, the tail holds at most
      32 values, and `count` is the number of values in the tree and the tail together. */
  ghost predicate TrieInvariant<T>(count: int, shift: nat, root: Node<T>, tail: seq<T>)
  {
    RootShape(root, shift) && |tail| <= BranchFactor && count == Size(root) + |tail|
  }

  // ---------------------------------------------------------------------------------------
  // Lemmas about the flattening

  lemma {:induction false} ElementsOfAppend<T>(a: seq<Node<T>>, b: seq<Node<T>>)
    ensures ElementsOf(a + b) == ElementsOf(a) + ElementsOf(b)
    decreases |b|
  {
    if b == [] {
      assert a + b == a;
    } else {
      var b' := b[..|b| - 1];
      assert (a + b)[..|a + b| - 1] == a + b';
      ElementsOfAppend(a, b');
    }
  }

  lemma ElementsOfSplit<T>(cs: seq<Node<T>>, c: nat)
    requires c < |cs|
    ensures ElementsOf(cs) == ElementsOf(cs[..c]) + Elements(cs[c]) + ElementsOf(cs[c + 1..])
  {
    var front, x, back := cs[..c], cs[c], cs[c + 1..];
    ElementsOfSingle(x);
    ElementsOfAppend(front, [x]);
    ElementsOfAppend(front + [x], back);
    SplitAround(cs, c);
  }

  lemma SplitAround<T>(cs: seq<T>, c: nat)
    requires c < |cs|
    ensures cs == (cs[..c] + [cs[c]]) + cs[c + 1..]
  {
  }

  lemma ElementsOfSingle<T>(x: Node<T>)
    ensures ElementsOf([x]) == Elements(x)
  {
    assert [x][..0] == [];
  }

  lemma {:induction false} FullPrefixSize<T>(cs: seq<Node<T>>, w: nat)
    requires forall c :: 0 <= c < |cs| ==> Size(cs[c]) == w
    ensures |ElementsOf(cs)| == |cs| * w
    decreases |cs|
  {
    if cs != [] {
      FullPrefixSize(cs[..|cs| - 1], w);
      assert |ElementsOf(cs)| == (|cs| - 1) * w + w;
    }
  }

  lemma PackedSize<T>(cs: seq<Node<T>>, level: nat)
    requires Packed(cs, level) && |cs| > 0
    ensures |ElementsOf(cs)| == (|cs| - 1) * Pow2(level + Shift) + Size(cs[|cs| - 1])
  {
    FullPrefixSize(cs[..|cs| - 1], Pow2(level + Shift));
  }

  lemma {:induction false} ElementsOfMultiple<T>(cs: seq<Node<T>>)
    requires forall c :: 0 <= c < |cs| ==> Size(cs[c]) % BranchFactor == 0
    ensures |ElementsOf(cs)| % BranchFactor == 0
    decreases |cs|
  {
    if cs != [] {
      ElementsOfMultiple(cs[..|cs| - 1]);
    }
  }

  lemma MulLe(a: nat, b: nat, w: nat)
    requires a <= b
    ensures a * w <= b * w
  {
  }

  /** 2^(level+5) splits into 32 child ranges of 2^level values each; for level >= 5 both are
      multiples of 32. */
  lemma LevelWidths(level: nat)
    ensures Pow2(level + Shift) == Pow2(level) * BranchFactor
    ensures level >= Shift ==> Pow2(level) % BranchFactor == 0
  {
    Pow2Five();
    Pow2Add(level, Shift);
    if level >= Shift {
      Pow2Add(level - Shift, Shift);
    }
  }

  /** Every dense subtree holds a positive multiple of 32 values, at most its capacity. */
  lemma {:induction false} DenseSize<T>(n: Node<T>, level: nat)
    requires Dense(n, level)
    ensures 0 < Size(n) <= Pow2(level + Shift) && Size(n) % BranchFactor == 0
    decreases n
  {
    Pow2Five();
    if level == 0 {
      assert Size(n) == 32;
    } else {
      var cs := n.children;
      forall c | 0 <= c < |cs|
        ensures 0 < Size(cs[c]) <= Pow2(level) && Size(cs[c]) % BranchFactor == 0
      {
        DenseSize(cs[c], level - Shift);
      }
      ElementsOfMultiple(cs);
      PackedSize(cs, level - Shift);
      LevelWidths(level);
      BranchCapacity(|cs|, Pow2(level), Size(cs[|cs| - 1]));
    }
  }

  /** `k` children of width `w`, the last holding `last` values, fit in `32 * w`. */
  lemma BranchCapacity(k: nat, w: nat, last: nat)
    requires 0 < k <= BranchFactor && 0 < last <= w
    ensures 0 < (k - 1) * w + last <= w * BranchFactor
  {
    assert (k - 1) * w + w == k * w;
    MulLe(k, BranchFactor, w);
  }

  /** A root with at least one value is a dense node. */
  lemma RootDense<T>(root: Node<T>, shift: nat)
    requires RootShape(root, shift) && Size(root) > 0
    ensures Dense(root, shift)
  {
    assert Elements(root) == ElementsOf(root.children);
  }

  /** The tree part of a vector holds a multiple of 32 values, at most 2^(shift+5). */
  lemma RootSize<T>(root: Node<T>, shift: nat)
    requires RootShape(root, shift)
    ensures Size(root) <= Pow2(shift + Shift) && Size(root) % BranchFactor == 0
  {
    if Size(root) > 0 {
      RootDense(root, shift);
      DenseSize(root, shift);
    }
  }

  /** Inside a row whose first `c` nodes are full (`w` values each), value `o` of node `c` is
      value `c * w + o` of the row. */
  lemma ElementsOfAt<T>(cs: seq<Node<T>>, c: nat, w: nat, o: nat)
    requires c < |cs| && o < Size(cs[c])
    requires forall c' :: 0 <= c' < c ==> Size(cs[c']) == w
    ensures c * w + o < |ElementsOf(cs)|
    ensures ElementsOf(cs)[c * w + o] == Elements(cs[c])[o]
  {
    ElementsOfSplit(cs, c);
    FullPrefixSize(cs[..c], w);
  }

  /** Replacing node `c` of such a row by one whose values differ only at `o` changes the row's
      values only at `c * w + o`. */
  lemma UpdateMiddle<T>(front: seq<T>, mid: seq<T>, back: seq<T>, o: nat, v: T)
    requires o < |mid|
    ensures (front + mid + back)[|front| + o := v] == front + mid[o := v] + back
  {
  }

  lemma ElementsOfUpdate<T>(cs: seq<Node<T>>, c: nat, w: nat, o: nat, x: Node<T>, v: T)
    requires c < |cs| && o < Size(cs[c])
    requires forall c' :: 0 <= c' < c ==> Size(cs[c']) == w
    requires Elements(x) == Elements(cs[c])[o := v]
    ensures c * w + o < |ElementsOf(cs)|
    ensures ElementsOf(cs[c := x]) == ElementsOf(cs)[c * w + o := v]
  {
    var cs' := cs[c := x];
    ElementsOfSplit(cs, c);
    ElementsOfSplit(cs', c);
    assert cs'[..c] == cs[..c];
    assert cs'[c + 1..] == cs[c + 1..];
    FullPrefixSize(cs[..c], w);
    UpdateMiddle(ElementsOf(cs[..c]), Elements(cs[c]), ElementsOf(cs[c + 1..]), o, v);
  }

  /** The descent step shared by `_node_for` and `_do_set`: in a dense branch, the value at the
      local offset of `i` lies in the child `ChildIndex(i, level)`, at the child's local offset. */
  lemma ChildAt<T>(n: Node<T>, level: nat, i: nat)
    requires Dense(n, level) && level >= Shift && i % Pow2(level + Shift) < Size(n)
    ensures ChildIndex(i, level) < |n.children|
    ensures i % Pow2(level) < Size(n.children[ChildIndex(i, level)])
    ensures i % Pow2(level + Shift) == ChildIndex(i, level) * Pow2(level) + i % Pow2(level)
    ensures Elements(n)[i % Pow2(level + Shift)]
         == Elements(n.children[ChildIndex(i, level)])[i % Pow2(level)]
  {
    var cs, w := n.children, Pow2(level);
    var c, o := ChildIndex(i, level), i % w;
    ChildDigits(i, level);
    ChildInRange(cs, level, c, o);
    ElementsOfAt(cs, c, w, o);
  }

  /** The 5-bit digit of `i` at `level` and the bits below it make up the local offset. */
  lemma ChildDigits(i: nat, level: nat)
    ensures i % Pow2(level + Shift) == ChildIndex(i, level) * Pow2(level) + i % Pow2(level)
    ensures i % Pow2(level) < Pow2(level)
  {
    var w := Pow2(level);
    LevelWidths(level);
    DigitSplit(i, w, BranchFactor);
    var j := i % Pow2(level + Shift);
    assert j == (j / w) * w + j % w;
  }

  /** An offset `c * w + o` below the size of a packed row lies in child `c`, at offset `o`. */
  lemma ChildInRange<T>(cs: seq<Node<T>>, level: nat, c: nat, o: nat)
    requires level >= Shift && Packed(cs, level - Shift) && 0 < |cs|
    requires o < Pow2(level) && c * Pow2(level) + o < |ElementsOf(cs)|
    ensures c < |cs| && o < Size(cs[c])
  {
    var w := Pow2(level);
    PackedSize(cs, level - Shift);
    var last := |cs| - 1;
    DenseSize(cs[last], level - Shift);
    assert (last + 1) * w == last * w + w;
    if c > last {
      MulLe(last + 1, c, w);
      assert false;
    }
    if c == last {
      assert o < Size(cs[c]);
    } else {
      assert Size(cs[c]) == w;
    }
  }

  // ---------------------------------------------------------------------------------------
  // Path copying

  lemma DenseChild<T>(n: Node<T>, level: nat, c: nat)
    requires Dense(n, level) && level >= Shift && c < |n.children|
    ensures Dense(n.children[c], level - Shift)
  {
    assert Packed(n.children, level - Shift);
  }

  /** Appending a dense child to a row whose children are all full keeps the node dense. */
  lemma AppendChild<T>(cs: seq<Node<T>>, level: nat, x: Node<T>)
    requires level >= Shift && |cs| < BranchFactor && Packed(cs, level - Shift)
    requires Dense(x, level - Shift)
    requires forall c :: 0 <= c < |cs| ==> Size(cs[c]) == Pow2(level)
    ensures Dense(Branch(cs + [x]), level)
    ensures Elements(Branch(cs + [x])) == ElementsOf(cs) + Elements(x)
  {
    var cs' := cs + [x];
    assert cs'[..|cs|] == cs;
    assert forall c :: 0 <= c < |cs'| - 1 ==> cs'[c] == cs[c];
    assert Packed(cs', level - Shift);
  }

  /** Replacing the last child of a dense node by a dense node with the same values plus a tail
      keeps the node dense. */
  lemma ReplaceLastChild<T>(cs: seq<Node<T>>, level: nat, x: Node<T>, tail: seq<T>)
    requires level >= Shift && 0 < |cs| <= BranchFactor && Packed(cs, level - Shift)
    requires Dense(x, level - Shift) && Elements(x) == Elements(cs[|cs| - 1]) + tail
    ensures Dense(Branch(cs[|cs| - 1 := x]), level)
    ensures Elements(Branch(cs[|cs| - 1 := x])) == ElementsOf(cs) + tail
  {
    var cs' := cs[|cs| - 1 := x];
    assert cs'[..|cs'| - 1] == cs[..|cs| - 1];
    assert forall c :: 0 <= c < |cs'| - 1 ==> cs'[c] == cs[c];
    assert Packed(cs', level - Shift);
  }

  /** `_do_set`: a copy of `node` with the value at the local offset of `i` replaced by `val`.
      Only the nodes on the path to that value are new; every other child is reused. */
  function DoSet<T>(level: nat, node: Node<T>, i: nat, val: T): (r: Node<T>)
    requires Dense(node, level) && i % Pow2(level + Shift) < Size(node)
    ensures Dense(r, level)
    ensures Elements(r) == Elements(node)[i % Pow2(level + Shift) := val]
    ensures r.Branch? ==> |r.children| == |node.children|
    ensures r.Branch? ==> forall c :: 0 <= c < |r.children| && c != ChildIndex(i, level)
                                   ==> r.children[c] == node.children[c]
    decreases node
  {
    if level == 0 then
      Pow2Five();
      Leaf(node.values[i % BranchFactor := val])
    else
      ChildAt(node, level, i);
      var sub := ChildIndex(i, level);
      DenseChild(node, level, sub);
      var child := DoSet(level - Shift, node.children[sub], i, val);
      ReplaceChild(node, level, i, child, val);
      Branch(node.children[sub := child])
  }

  /** The step of `DoSet` at a branch: putting the updated child back into its slot. */
  lemma ReplaceChild<T>(node: Node<T>, level: nat, i: nat, child: Node<T>, val: T)
    requires Dense(node, level) && level >= Shift && i % Pow2(level + Shift) < Size(node)
    requires ChildIndex(i, level) < |node.children|
    requires i % Pow2(level) < Size(node.children[ChildIndex(i, level)])
    requires Dense(child, level - Shift)
    requires Elements(child) == Elements(node.children[ChildIndex(i, level)])[i % Pow2(level) := val]
    ensures Dense(Branch(node.children[ChildIndex(i, level) := child]), level)
    ensures Elements(Branch(node.children[ChildIndex(i, level) := child]))
         == Elements(node)[i % Pow2(level + Shift) := val]
  {
    ChildAt(node, level, i);
    var cs, sub := node.children, ChildIndex(i, level);
    var cs' := cs[sub := child];
    assert forall c :: 0 <= c < |cs| && c != sub ==> cs'[c] == cs[c];
    assert Packed(cs', level - Shift);
    ElementsOfUpdate(cs, sub, Pow2(level), i % Pow2(level), child, val);
  }

  /** `_new_path`: a chain of single-child branches from `level` down to a leaf holding `tail`. */
  function NewPath<T>(level: nat, tail: seq<T>): (r: Node<T>)
    requires level % Shift == 0
    ensures Elements(r) == tail
    ensures |tail| == BranchFactor ==> Dense(r, level)
    decreases level
  {
    if level == 0 then
      Leaf(tail)
    else
      var child := NewPath(level - Shift, tail);
      assert [child][..0] == [];
      assert ElementsOf([child]) == Elements(child);
      Branch([child])
  }

  /** The arithmetic behind `PushTailSlot`, for a subtree of child width `w` (so capacity
      `w * 32`) whose `n` children hold `(n - 1) * w + lastSize` values. */
  lemma TailSlotArith(count: nat, w: nat, n: nat, lastSize: nat)
    requires w >= BranchFactor && w % BranchFactor == 0 && count >= BranchFactor
    requires n == 0 ==> (count - BranchFactor) % (w * BranchFactor) == 0
    requires n > 0 ==> 0 < lastSize <= w && lastSize % BranchFactor == 0
    requires n > 0 ==> (count - BranchFactor) % (w * BranchFactor) == (n - 1) * w + lastSize
    ensures n == 0 ==> (count - 1) / w % BranchFactor == 0
    ensures n > 0 && lastSize < w ==>
      (count - 1) / w % BranchFactor == n - 1 && (count - BranchFactor) % w == lastSize
    ensures n > 0 && lastSize == w ==> (count - 1) / w % BranchFactor == n && n < BranchFactor
  {
    if n == 0 {
      TailDigits(count, w, 0);
      DivModUnique(31, w, 0, 31);
    } else if lastSize < w {
      TailSlotRoom(count, w, n - 1, lastSize);
    } else {
      TailSlotFull(count, w, n);
    }
  }

  lemma TailSlotRoom(count: nat, w: nat, k: nat, lastSize: nat)
    requires w >= BranchFactor && w % BranchFactor == 0 && count >= BranchFactor
    requires lastSize < w && lastSize % BranchFactor == 0
    requires (count - BranchFactor) % (w * BranchFactor) == k * w + lastSize
    ensures (count - 1) / w % BranchFactor == k && (count - BranchFactor) % w == lastSize
  {
    var s := (count - BranchFactor) % (w * BranchFactor);
    MultipleOfWidth(k, w);
    SumOfMultiples(k * w, lastSize);
    TailDigits(count, w, s);
    SlotWithRoom(w, k, lastSize, s);
  }

  lemma TailSlotFull(count: nat, w: nat, n: nat)
    requires w >= BranchFactor && w % BranchFactor == 0 && count >= BranchFactor && n > 0
    requires (count - BranchFactor) % (w * BranchFactor) == (n - 1) * w + w
    ensures (count - 1) / w % BranchFactor == n && n < BranchFactor
  {
    var s := (count - BranchFactor) % (w * BranchFactor);
    MultipleOfWidth(n - 1, w);
    SumOfMultiples((n - 1) * w, w);
    TailDigits(count, w, s);
    SlotWhenFull(w, n, s);
  }

  /** An offset inside the last child, which has room for 32 more values. */
  lemma SlotWithRoom(w: nat, k: nat, lastSize: nat, s: nat)
    requires w > 0 && lastSize % BranchFactor == 0 && w % BranchFactor == 0 && lastSize < w
    requires s == k * w + lastSize
    ensures (s + 31) / w == k && s % w == lastSize
  {
    DivModUnique(s + 31, w, k, lastSize + 31);
    DivModUnique(s, w, k, lastSize);
  }

  /** An offset just past `n` full children of a block of 32. */
  lemma SlotWhenFull(w: nat, n: nat, s: nat)
    requires w >= BranchFactor && s == (n - 1) * w + w && n > 0 && s < w * BranchFactor
    ensures (s + 31) / w == n && n < BranchFactor
  {
    assert s == n * w;
    DivModUnique(s + 31, w, n, 31);
    if n >= BranchFactor {
      MulLe(BranchFactor, n, w);
    }
  }

  lemma SumOfMultiples(x: nat, y: nat)
    requires x % BranchFactor == 0 && y % BranchFactor == 0
    ensures (x + y) % BranchFactor == 0
  {
    DivModUnique(x + y, BranchFactor, x / BranchFactor + y / BranchFactor, 0);
  }

  lemma MultipleOfWidth(k: nat, w: nat)
    requires w % BranchFactor == 0
    ensures (k * w) % BranchFactor == 0
  {
    var m := w / BranchFactor;
    assert k * w == (k * m) * BranchFactor;
  }

  /** With `s` the offset of `count - 32` inside a block of `32 * w`, a multiple of 32: the
      child slot of `count - 1` and the offset of `count - 32` inside its child. */
  lemma TailDigits(count: nat, w: nat, s: nat)
    requires w >= BranchFactor && w % BranchFactor == 0 && count >= BranchFactor
    requires s == (count - BranchFactor) % (w * BranchFactor) && s % BranchFactor == 0
    ensures (count - 1) / w % BranchFactor == (s + 31) / w
    ensures (count - BranchFactor) % w == s % w
  {
    var p := w * BranchFactor;
    var q := (count - BranchFactor) / p;
    assert count - BranchFactor == q * p + s;
    assert s + 31 < p by {
      MultipleOfWidth(BranchFactor, w);
      var a, b := s / BranchFactor, p / BranchFactor;
      assert s == a * BranchFactor && p == b * BranchFactor;
    }
    DivModUnique(count - 1, p, q, s + 31);
    DigitSplit(count - 1, w, BranchFactor);
    DigitSplit(count - BranchFactor, w, BranchFactor);
  }

  /** Where `_push_tail` goes at a branch above the leaf level: `count - 1` is the last index of
      the full tail, so its child slot is the last child when that child still has room, and one
      past the last child when every child is full. */
  lemma PushTailSlot<T>(count: nat, level: nat, cs: seq<Node<T>>)
    requires level >= 2 * Shift && |cs| <= BranchFactor && Packed(cs, level - Shift)
    requires count >= BranchFactor && |ElementsOf(cs)| == (count - BranchFactor) % Pow2(level + Shift)
    ensures ChildIndex(count - 1, level) <= |cs|
    ensures ChildIndex(count - 1, level) < |cs| ==>
              && ChildIndex(count - 1, level) == |cs| - 1
              && Size(cs[|cs| - 1]) == (count - BranchFactor) % Pow2(level)
    ensures ChildIndex(count - 1, level) == |cs| ==>
              |cs| < BranchFactor && forall c :: 0 <= c < |cs| ==> Size(cs[c]) == Pow2(level)
  {
    var w := Pow2(level);
    LevelWidths(level);
    if cs == [] {
      TailSlotArith(count, w, 0, 0);
    } else {
      var n := |cs|;
      DenseSize(cs[n - 1], level - Shift);
      PackedSize(cs, level - Shift);
      TailSlotArith(count, w, n, Size(cs[n - 1]));
    }
  }

  /** What `_push_tail` needs to know at a branch above the leaf level: the level below is a
      branch level too, and the child slot it takes is either the last child, a node that can
      take the tail, or the next free slot of a row of full children. */
  lemma DescendForPush<T>(count: nat, level: nat, cs: seq<Node<T>>)
    requires level >= Shift && level % Shift == 0 && level != Shift
    requires |cs| <= BranchFactor && Packed(cs, level - Shift)
    requires count >= BranchFactor && |ElementsOf(cs)| == (count - BranchFactor) % Pow2(level + Shift)
    ensures level - Shift >= Shift && (level - Shift) % Shift == 0
    ensures ChildIndex(count - 1, level) <= |cs|
    ensures ChildIndex(count - 1, level) < |cs| ==>
              && ChildIndex(count - 1, level) == |cs| - 1
              && Dense(cs[|cs| - 1], level - Shift)
              && cs[|cs| - 1].Branch? && |cs[|cs| - 1].children| <= BranchFactor
              && Packed(cs[|cs| - 1].children, level - Shift - Shift)
              && Size(cs[|cs| - 1]) == (count - BranchFactor) % Pow2(level)
    ensures ChildIndex(count - 1, level) == |cs| ==>
              |cs| < BranchFactor && forall c :: 0 <= c < |cs| ==> Size(cs[c]) == Pow2(level)
  {
    PushTailSlot(count, level, cs);
    if ChildIndex(count - 1, level) < |cs| {
      assert Dense(cs[|cs| - 1], level - Shift);
    }
  }

  /** `_push_tail`: a copy of `parent` (a node at `level` that is not yet full) with the full
      tail added as its next leaf. `count` is the vector's count, tail included. */
  function PushTail<T>(count: nat, level: nat, parent: Node<T>, tail: seq<T>): (r: Node<T>)
    requires level >= Shift && level % Shift == 0
    requires parent.Branch? && |parent.children| <= BranchFactor
    requires Packed(parent.children, level - Shift)
    requires |tail| == BranchFactor && count >= BranchFactor
    requires Size(parent) == (count - BranchFactor) % Pow2(level + Shift)
    ensures Dense(r, level)
    ensures Elements(r) == Elements(parent) + tail
    decreases level
  {
    var cs := parent.children;
    if level == Shift then
      LeafRowRoom(count, cs);
      AppendChild(cs, level, Leaf(tail));
      Branch(cs + [Leaf(tail)])
    else
      DescendForPush(count, level, cs);
      var sub := ChildIndex(count - 1, level);
      if |cs| > sub then
        var child := PushTail(count, level - Shift, cs[sub], tail);
        ReplaceLastChild(cs, level, child, tail);
        Branch(cs[sub := child])
      else
        var path := NewPath(level - Shift, tail);
        AppendChild(cs, level, path);
        Branch(cs + [path])
  }

  /** A row of full leaves whose values end where a new leaf of `count` would start has room. */
  lemma LeafRowRoom<T>(count: nat, cs: seq<Node<T>>)
    requires |cs| <= BranchFactor && Packed(cs, 0) && count >= BranchFactor
    requires |ElementsOf(cs)| == (count - BranchFactor) % Pow2(2 * Shift)
    ensures |cs| < BranchFactor && forall c :: 0 <= c < |cs| ==> Size(cs[c]) == Pow2(Shift)
  {
    Pow2Five();
    LevelWidths(Shift);
    assert forall c :: 0 <= c < |cs| ==> Size(cs[c]) == BranchFactor;
    FullPrefixSize(cs, BranchFactor);
  }

  /** `(count >> SHIFT) > (1 << shift)`, the root-overflow test, holds exactly when the tree is
      full, once the tail is full too. */
  lemma RootOverflowIffFull<T>(count: nat, shift: nat, root: Node<T>, tail: seq<T>)
    requires TrieInvariant(count, shift, root, tail) && |tail| == BranchFactor
    ensures Shr(count, Shift) > Pow2(shift) <==> Size(root) == Pow2(shift + Shift)
  {
    Pow2Five();
    RootSize(root, shift);
    LevelWidths(shift);
    var k := Size(root) / BranchFactor;
    assert Size(root) == k * BranchFactor;
    DivModUnique(count, BranchFactor, k + 1, 0);
  }

  /** `_create_new_root`: folds the full tail into the tree. When the tree is full the old root
      becomes the first child of a new root one level taller; otherwise the tail is pushed down
      the rightmost path. Returns the new root and the new shift. */
  function CreateNewRoot<T>(count: nat, shift: nat, root: Node<T>, tail: seq<T>): (r: (Node<T>, nat))
    requires TrieInvariant(count, shift, root, tail) && |tail| == BranchFactor
    ensures RootShape(r.0, r.1)
    ensures Elements(r.0) == Elements(root) + tail
    ensures r.1 == shift || r.1 == shift + Shift
    ensures r.1 == shift + Shift <==> Size(root) == Pow2(shift + Shift)
  {
    RootOverflowIffFull(count, shift, root, tail);
    if Shr(count, Shift) > Pow2(shift) then
      var path := NewPath(shift, tail);
      GrowRoot(root, shift, path);
      (Branch([root, path]), shift + Shift)
    else
      InsertAtRoot(count, shift, root, tail);
      (PushTail(count, shift, root, tail), shift)
  }

  /** A full root and a dense path of the same level make a dense root one level up. */
  lemma GrowRoot<T>(root: Node<T>, shift: nat, path: Node<T>)
    requires RootShape(root, shift) && Size(root) == Pow2(shift + Shift) && Dense(path, shift)
    ensures RootShape(Branch([root, path]), shift + Shift)
    ensures Elements(Branch([root, path])) == Elements(root) + Elements(path)
  {
    RootDense(root, shift);
    var cs := [root, path];
    assert cs[..1] == [root];
    assert [root][..0] == [];
    assert ElementsOf([root]) == Elements(root);
    assert Packed(cs, shift);
  }

  /** When the tree is not full, the full tail starts at offset `Size(root)` of the root. */
  lemma InsertAtRoot<T>(count: nat, shift: nat, root: Node<T>, tail: seq<T>)
    requires TrieInvariant(count, shift, root, tail) && |tail| == BranchFactor
    requires Size(root) != Pow2(shift + Shift)
    ensures Size(root) == (count - BranchFactor) % Pow2(shift + Shift)
  {
    RootSize(root, shift);
    DivModUnique(count - BranchFactor, Pow2(shift + Shift), 0, Size(root));
  }
}
