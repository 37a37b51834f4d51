/** The persistent vector `PythonPVector` of src/pvector.py: a handle on an immutable trie plus
    a tail buffer, where every update builds a new handle and records it in a version list. */
module PVectors {
  import opened Wrappers
  import opened Lists
  import opened Bits
  import opened Trie

  /** The index argument of `set`: an integer, or some object that is not one. */
  datatype Index = Int(n: int) | NotInt

  /** Python's treatment of a negative index: it counts from the end. */
  function Normalize(i: int, count: int): int
  {
    if i < 0 then i + count else i
  }

  /** A position at or after the tail offset lies in the tail, at slot `i % 32` (`i & BIT_MASK`). */
  lemma TailSlot(i: nat, tailOffset: nat, tailLen: nat)
    requires tailOffset % BranchFactor == 0 && tailLen <= BranchFactor
    requires tailOffset <= i < tailOffset + tailLen
    ensures i % BranchFactor == i - tailOffset
  {
    DivModUnique(i, BranchFactor, tailOffset / BranchFactor, i - tailOffset);
  }

  /** An index below the size of the tree reaches it unchanged at the root's level. */
  lemma RootOffset(i: nat, width: nat)
    requires i < width
    ensures i % width == i
  {
    DivModUnique(i, width, 0, i);
  }

  class PVector<T(==)> {
    var count: int
    var shift: nat
    var root: Node<T>
    var tail: seq<T>
    var tailOffset: int
    /** The versions this handle knows of, oldest first. Each handle owns its list: a new
        handle starts from a copy of the list it is given, with itself at the end, and an
        update appends the handle it creates to the list of the handle it is called on. */
    var versions: seq<PVector<T>>

    /** The list of values, first to last: what `tolist` returns. */
    ghost function Contents(): seq<T>
      reads this
    {
      Elements(root) + tail
    }

    ghost predicate Valid()
      reads this
    {
      && TrieInvariant(count, shift, root, tail)
      && tailOffset == count - |tail|
      && this in versions
    }

    /** `__new__`: a handle on the given trie, appended to the given version list. */
    constructor (count: int, shift: nat, root: Node<T>, tail: seq<T>, versions: seq<PVector<T>>)
      ensures this.count == count && this.shift == shift && this.root == root && this.tail == tail
      ensures tailOffset == count - |tail|
      ensures this.versions == versions + [this]
      ensures TrieInvariant(count, shift, root, tail) ==> Valid()
    {
      this.count := count;
      this.shift := shift;
      this.root := root;
      this.tail := tail;
      tailOffset := count - |tail|;
      new;
      this.versions := versions + [this];
    }

    /** `_save_version`: records `v` as the newest version. */
    method SaveVersion(v: PVector<T>)
      modifies this`versions
      ensures versions == old(versions) + [v]
    {
      versions := versions + [v];
    }

    /** `count` and `length`. */
    function Length(): (n: int)
      reads this
      requires Valid()
      ensures n == |Contents()|
    {
      count
    }

    /** `_node_for`: the leaf row that holds position `i` (the tail when `i` is past the tree),
        or IndexError when `i` is outside `[0, count)`. */
    method NodeFor(i: int) returns (r: Result<seq<T>>)
      requires Valid()
      ensures r.Ok? <==> 0 <= i < count
      ensures r.Err? ==> r.error == IndexError
      ensures r.Ok? ==> i % BranchFactor < |r.value| && r.value[i % BranchFactor] == Contents()[i]
      ensures r.Ok? && i >= tailOffset ==> r.value == tail
    {
      if 0 <= i < count {
        RootSize(root, shift);
        if i >= tailOffset {
          TailSlot(i, tailOffset, |tail|);
          return Ok(tail);
        }
        var j: nat := i;
        RootDense(root, shift);
        RootOffset(j, Pow2(shift + Shift));
        var node := root;
        var level: nat := shift;
        while level > 0
          invariant Dense(node, level)
          invariant j % Pow2(level + Shift) < Size(node)
          invariant Elements(node)[j % Pow2(level + Shift)] == Elements(root)[j]
        {
          ChildAt(node, level, j);
          DenseChild(node, level, ChildIndex(j, level));
          node := node.children[ChildIndex(j, level)];
          level := level - Shift;
        }
        Pow2Five();
        return Ok(node.values);
      }
      return Err(IndexError);
    }

    /** `__getitem__` with an integer index: a negative index counts from the end. */
    method Get(index: int) returns (r: Result<T>)
      requires Valid()
      ensures -count <= index < count ==> r == Ok(Contents()[Normalize(index, count)])
      ensures !(-count <= index < count) ==> r == Err(IndexError)
    {
      var i := index;
      if i < 0 {
        i := i + count;
      }
      var node := NodeFor(i);
      if node.Err? {
        return Err(node.error);
      }
      return Ok(node.value[i % BranchFactor]);
    }

    /** `_fill_list`: `theList` extended with the values of `node`, a subtree at level `level`. */
    static method FillList(node: Node<T>, level: nat, theList: seq<T>) returns (filled: seq<T>)
      requires Dense(node, level) || RootShape(node, level)
      ensures filled == theList + Elements(node)
      decreases node
    {
      if level != 0 {
        var cs := node.children;
        filled := theList;
        for k := 0 to |cs|
          invariant filled == theList + ElementsOf(cs[..k])
        {
          assert Dense(cs[k], level - Shift);
          filled := FillList(cs[k], level - Shift, filled);
          assert cs[..k + 1][..k] == cs[..k];
        }
        assert cs[..|cs|] == cs;
      } else {
        filled := theList + node.values;
      }
    }

    /** `tolist`: the values of the tree followed by those of the tail. */
    method ToList() returns (s: seq<T>)
      requires Valid()
      ensures s == Contents()
    {
      s := FillList(root, shift, []);
      s := s + tail;
    }

    /** `set`: a new vector with position `i` holding `val` (a negative `i` counts from the
        end); `i == count` appends. Writing to the tail copies only the tail and shares the
        tree; writing to the tree copies one path and shares the tail. */
    method Set(i: Index, val: T) returns (r: Result<PVector<T>>)
      requires Valid()
      modifies this`versions
      ensures i.NotInt? ==> r == Err(TypeError)
      ensures i.Int? && !(0 <= Normalize(i.n, count) <= count) ==> r == Err(IndexError)
      ensures r.Err? ==> versions == old(versions)
      ensures r.Ok? ==> fresh(r.value) && r.value.Valid()
      ensures r.Ok? ==> versions == old(versions) + [r.value] && r.value.versions == versions
      ensures i.Int? && 0 <= Normalize(i.n, count) < count ==>
        && r.Ok?
        && r.value.Contents() == Contents()[Normalize(i.n, count) := val]
        && r.value.count == count
        && (Normalize(i.n, count) >= tailOffset ==> r.value.root == root && r.value.shift == shift)
        && (Normalize(i.n, count) < tailOffset ==> r.value.tail == tail && r.value.shift == shift)
      ensures i.Int? && Normalize(i.n, count) == count ==>
        r.Ok? && r.value.Contents() == Contents() + [val] && r.value.count == count + 1
    {
      if i.NotInt? {
        return Err(TypeError);
      }
      var n := i.n;
      if n < 0 {
        n := n + count;
      }
      if 0 <= n < count {
        RootSize(root, shift);
        if n >= tailOffset {
          TailSlot(n, tailOffset, |tail|);
          UpdateRight(Elements(root), tail, n, val);
          var newTail := tail[n % BranchFactor := val];
          var v := new PVector(count, shift, root, newTail, versions);
          SaveVersion(v);
          return Ok(v);
        }
        RootDense(root, shift);
        RootOffset(n, Pow2(shift + Shift));
        UpdateLeft(Elements(root), tail, n, val);
        var newRoot := DoSet(shift, root, n, val);
        var v := new PVector(count, shift, newRoot, tail, versions);
        SaveVersion(v);
        return Ok(v);
      }
      if n == count {
        var v := Append(val);
        return Ok(v);
      }
      return Err(IndexError);
    }

    /** `append`: a new vector with `val` at the end. While the tail has room the tree is
        shared; a full tail is pushed into the tree first, which deepens the tree by one level
        exactly when it was full. */
    method Append(val: T) returns (r: PVector<T>)
      requires Valid()
      modifies this`versions
      ensures fresh(r) && r.Valid()
      ensures r.Contents() == Contents() + [val] && r.count == count + 1
      ensures |tail| < BranchFactor ==> r.root == root && r.shift == shift
      ensures |tail| == BranchFactor ==>
        && r.tail == [val]
        && (r.shift == shift + Shift <==> Size(root) == Pow2(shift + Shift))
        && (r.shift != shift + Shift ==> r.shift == shift)
      ensures versions == old(versions) + [r] && r.versions == versions
    {
      if |tail| < BranchFactor {
        var newTail := tail + [val];
        r := new PVector(count + 1, shift, root, newTail, versions);
        SaveVersion(r);
      } else {
        var grown := CreateNewRoot(count, shift, root, tail);
        r := new PVector(count + 1, grown.1, grown.0, [val], versions);
        SaveVersion(r);
      }
    }

    /** `_mutating_fill_tail`: moves as many values of `sequence` from `offset` on into the tail
        as it has room for, and returns the offset of the first value not moved. */
    method MutatingFillTail(offset: nat, sequence: seq<T>) returns (newOffset: nat)
      requires offset <= |sequence| && |tail| <= BranchFactor
      modifies this`tail, this`count
      ensures newOffset == Min(offset + BranchFactor - |old(tail)|, |sequence|)
      ensures tail == old(tail) + sequence[offset..newOffset]
      ensures count == old(count) + (newOffset - offset)
    {
      var maxDeltaLen := BranchFactor - |tail|;
      var delta := sequence[offset..Min(offset + maxDeltaLen, |sequence|)];
      tail := tail + delta;
      count := count + |delta|;
      newOffset := offset + |delta|;
    }

    /** `_mutating_insert_tail`: pushes the full tail into the tree and empties it. */
    method MutatingInsertTail()
      requires TrieInvariant(count, shift, root, tail) && |tail| == BranchFactor
      modifies this`root, this`shift, this`tail
      ensures TrieInvariant(count, shift, root, tail) && tail == []
      ensures Elements(root) == Elements(old(root)) + old(tail)
      ensures shift == old(shift) + Shift <==> Size(old(root)) == Pow2(old(shift) + Shift)
      ensures shift != old(shift) + Shift ==> shift == old(shift)
    {
      var grown := CreateNewRoot(count, shift, root, tail);
      root, shift := grown.0, grown.1;
      tail := [];
    }

    /** `_mutating_extend`: appends every value of `sequence` to this handle in place, filling
        the tail and pushing it into the tree whenever it is full. */
    method MutatingExtend(sequence: seq<T>)
      requires TrieInvariant(count, shift, root, tail)
      modifies this`count, this`shift, this`root, this`tail, this`tailOffset
      ensures TrieInvariant(count, shift, root, tail) && tailOffset == count - |tail|
      ensures Contents() == old(Contents()) + sequence
    {
      var offset := 0;
      var sequenceLen := |sequence|;
      while offset < sequenceLen
        invariant 0 <= offset <= sequenceLen
        invariant TrieInvariant(count, shift, root, tail)
        invariant Contents() == old(Contents()) + sequence[..offset]
        decreases sequenceLen - offset, if |tail| == BranchFactor then 1 else 0
      {
        var start, before := offset, tail;
        offset := MutatingFillTail(offset, sequence);
        assert Contents() == Elements(root) + before + sequence[start..offset];
        assert sequence[..offset] == sequence[..start] + sequence[start..offset];
        if |tail| == BranchFactor {
          MutatingInsertTail();
        }
      }
      assert sequence[..offset] == sequence;
      tailOffset := count - |tail|;
    }

    /** `extend`: a new vector with the values of `obj` appended, or this same handle when
        `obj` is empty. */
    method Extend(obj: seq<T>) returns (r: PVector<T>)
      requires Valid()
      modifies this`versions
      ensures obj == [] ==> r == this && versions == old(versions)
      ensures obj != [] ==> fresh(r) && r.Valid() && r.Contents() == Contents() + obj
      ensures obj != [] ==> versions == old(versions) + [r] && r.versions == versions
    {
      if obj != [] {
        r := Append(obj[0]);
        r.MutatingExtend(obj[1..]);
        assert obj == [obj[0]] + obj[1..];
      } else {
        r := this;
      }
    }

    /** `extend` given another vector: its values, by way of its `tolist`. */
    method ExtendVector(other: PVector<T>) returns (r: PVector<T>)
      requires Valid() && other.Valid()
      modifies this`versions
      ensures old(other.Contents()) == [] ==> r == this && versions == old(versions)
      ensures old(other.Contents()) != [] ==> fresh(r) && r.Valid() && r.Contents() == old(Contents()) + old(other.Contents())
      ensures old(other.Contents()) != [] ==> versions == old(versions) + [r] && r.versions == versions
    {
      var obj := other.ToList();
      r := Extend(obj);
    }

    /** `remove`: a new vector without the first occurrence of `value`, or ValueError when
        there is none. The empty vector the result is built from is recorded as a version. */
    method Remove(value: T) returns (r: Result<PVector<T>>)
      requires Valid()
      modifies this`versions
      ensures value !in Contents() ==> r == Err(ValueError) && versions == old(versions)
      ensures value in Contents() ==>
        && r.Ok? && fresh(r.value) && r.value.Valid()
        && r.value.Contents() == RemoveFirst(Contents(), value)
        && |versions| == |old(versions)| + 1 && versions == old(versions) + [versions[|old(versions)|]]
        && fresh(versions[|old(versions)|]) && versions[|old(versions)|].Valid()
        && versions[|old(versions)|].Contents() == []
        && (RemoveFirst(Contents(), value) == [] ==> r.value == versions[|old(versions)|] && r.value.versions == versions)
        && (RemoveFirst(Contents(), value) != [] ==>
              r.value.versions == versions + [r.value] && versions[|old(versions)|].versions == r.value.versions)
    {
      var l := ToList();
      if value !in l {
        return Err(ValueError);
      }
      l := RemoveFirst(l, value);
      var e := Rebuild(l);
      return Ok(e);
    }

    /** What `remove` and a slice share: a new empty vector, recorded as a version of this
        one, extended with `values`. */
    method Rebuild(values: seq<T>) returns (r: PVector<T>)
      requires Valid()
      modifies this`versions
      ensures fresh(r) && r.Valid() && r.Contents() == values
      ensures |versions| == |old(versions)| + 1 && versions == old(versions) + [versions[|old(versions)|]]
      ensures fresh(versions[|old(versions)|]) && versions[|old(versions)|].Valid()
      ensures versions[|old(versions)|].Contents() == []
      ensures values == [] ==> r == versions[|old(versions)|] && r.versions == versions
      ensures values != [] ==> r.versions == versions + [r] && versions[|old(versions)|].versions == r.versions
    {
      var newV := new PVector(0, Shift, Branch([]), [], versions);
      SaveVersion(newV);
      r := newV.Extend(values);
    }

    /** `__getitem__` with a slice of step 1: this same handle for `[:]`, otherwise a new vector
        holding the sliced values, built like `remove` builds its result. */
    method Slice(start: Option<int>, stop: Option<int>) returns (r: PVector<T>)
      requires Valid()
      modifies this`versions
      ensures start.None? && stop.None? ==> r == this && versions == old(versions)
      ensures !(start.None? && stop.None?) ==>
        && fresh(r) && r.Valid() && r.Contents() == Lists.Slice(Contents(), start, stop)
        && |versions| == |old(versions)| + 1 && versions == old(versions) + [versions[|old(versions)|]]
        && fresh(versions[|old(versions)|]) && versions[|old(versions)|].Valid()
        && versions[|old(versions)|].Contents() == []
        && (Lists.Slice(Contents(), start, stop) == [] ==> r == versions[|old(versions)|] && r.versions == versions)
        && (Lists.Slice(Contents(), start, stop) != [] ==>
              r.versions == versions + [r] && versions[|old(versions)|].versions == r.versions)
    {
      if start.None? && stop.None? {
        return this;
      }
      var l := ToList();
      r := Rebuild(Lists.Slice(l, start, stop));
    }

    /** `index`: the first position holding `value`, or ValueError when there is none. */
    method Index(value: T) returns (r: Result<nat>)
      requires Valid()
      ensures r.Ok? <==> value in Contents()
      ensures r.Err? ==> r.error == ValueError
      ensures r.Ok? ==> r.value < |Contents()| && Contents()[r.value] == value
      ensures r.Ok? ==> forall j :: 0 <= j < r.value ==> Contents()[j] != value
    {
      var l := ToList();
      if value !in l {
        return Err(ValueError);
      }
      return Ok(IndexOf(l, value));
    }

    /** `count(value)`: how many positions hold `value`. */
    method Count(value: T) returns (n: nat)
      requires Valid()
      ensures n == multiset(Contents())[value]
    {
      var l := ToList();
      n := CountOf(l, value);
    }

    /** `undo`: the version recorded just before this handle in its list, or the handle itself
        when it is the oldest. */
    method Undo() returns (r: PVector<T>)
      requires Valid()
      ensures r in versions
      ensures IndexOf(versions, this) == 0 ==> r == this
      ensures IndexOf(versions, this) > 0 ==> r == versions[IndexOf(versions, this) - 1]
    {
      var currIndex: int := IndexOf(versions, this);
      currIndex := Max(0, currIndex - 1);
      r := versions[currIndex];
    }

    /** `redo`: the version recorded just after this handle in its list, or the handle itself
        when it is the newest. */
    method Redo() returns (r: PVector<T>)
      requires Valid()
      ensures r in versions
      ensures IndexOf(versions, this) == |versions| - 1 ==> r == this
      ensures IndexOf(versions, this) < |versions| - 1 ==> r == versions[IndexOf(versions, this) + 1]
    {
      var currIndex := IndexOf(versions, this);
      currIndex := Min(|versions| - 1, currIndex + 1);
      r := versions[currIndex];
    }
  }

  /** `pvector(iterable)`: a vector holding the values of `s`. It is built by extending a new
      empty vector, which stays recorded as the version before it when `s` is not empty. */
  method PVectorOf<T(==)>(s: seq<T>) returns (r: PVector<T>)
    ensures fresh(r) && r.Valid() && r.Contents() == s && r.count == |s|
    ensures s == [] ==> r.versions == [r]
    ensures s != [] ==> |r.versions| == 2 && r.versions[1] == r && r.versions[0] != r
    ensures s != [] ==> r.versions[0].Contents() == [] && r.versions[0].Valid()
  {
    var empty := new PVector(0, Shift, Branch([]), [], []);
    r := empty.Extend(s);
  }

  /** `pvector(s).tolist()` gives back `s`. */
  method RoundTrip<T(==)>(s: seq<T>) returns (l: seq<T>)
    ensures l == s
  {
    var v := PVectorOf(s);
    l := v.ToList();
  }

  /** Removing a value from a vector of two or more values, then undoing, gives the empty
      vector the result was built from, not the vector the value was removed from. */
  method RemoveThenUndo<T(==)>(v: PVector<T>, x: T) returns (u: PVector<T>)
    requires v.Valid() && x in v.Contents() && |v.Contents()| >= 2
    modifies v`versions
    ensures |v.versions| == |old(v.versions)| + 1
    ensures u == v.versions[|old(v.versions)|] && u.Contents() == [] && u != v
  {
    ghost var before := v.versions;
    var r := v.Remove(x);
    var w := r.value;
    ghost var e := v.versions[|before|];
    assert |w.Contents()| == |v.Contents()| - 1;
    assert w !in before;
    BeforeLast(before, e, w);
    u := w.Undo();
  }

  /** Undoing a vector built from a non-empty sequence gives the empty vector; redoing an
      empty vector after an append gives the appended vector. */
  method UndoRedoScenario<T(==)>(s: seq<T>, x: T) returns (undone: nat, redone: seq<T>)
    requires s != []
    ensures undone == 0 && redone == [x]
  {
    var v := PVectorOf(s);
    var u := v.Undo();
    undone := u.Length();
    var e := PVectorOf<T>([]);
    var e1 := e.Append(x);
    var again := e.Redo();
    redone := again.ToList();
  }
}
