/** The Python list built-ins the collections rely on (`max`, `min`, `list.index`,
    `list.count`, `list.remove` and slicing), stated over sequences. */
module Lists {
  import opened Wrappers

  function Max(a: int, b: int): int
  {
    if a < b then b else a
  }

  function Min(a: int, b: int): int
  {
    if a < b then a else b
  }

  /** `list.index(x)`: the position of the first element equal to `x`. */
  function IndexOf<X(==)>(s: seq<X>, x: X): (k: nat)
    requires x in s
    ensures k < |s| && s[k] == x
    ensures forall j :: 0 <= j < k ==> s[j] != x
  {
    if s[0] == x then 0 else 1 + IndexOf(s[1..], x)
  }

  /** A value found only at the end of a list is found there. */
  lemma IndexOfLast<X>(s: seq<X>, x: X)
    requires x !in s
    ensures IndexOf(s + [x], x) == |s|
  {
    assert (s + [x])[|s|] == x;
  }

  /** In `s + [y, x]` with `x` only at the end, the entry before `x` is `y`. */
  lemma BeforeLast<X>(s: seq<X>, y: X, x: X)
    requires x !in s && x != y
    ensures x in s + [y] + [x] && IndexOf(s + [y] + [x], x) == |s| + 1
    ensures (s + [y] + [x])[IndexOf(s + [y] + [x], x) - 1] == y
  {
    IndexOfLast(s + [y], x);
  }

  /** `list.count(x)`: how many elements equal `x`. */
  function CountOf<X(==)>(s: seq<X>, x: X): (n: nat)
    ensures n == multiset(s)[x]
  {
    if s == [] then 0
    else
      assert s == [s[0]] + s[1..];
      (if s[0] == x then 1 else 0) + CountOf(s[1..], x)
  }

  /** `list.remove(x)` on a list that holds `x`: the list without its first `x`. */
  function RemoveFirst<X(==)>(s: seq<X>, x: X): (r: seq<X>)
    requires x in s
    ensures |r| == |s| - 1
    ensures forall j :: 0 <= j < |r| ==> r[j] == if j < IndexOf(s, x) then s[j] else s[j + 1]
    ensures multiset(r) == multiset(s) - multiset{x}
  {
    var k := IndexOf(s, x);
    assert s == s[..k] + [x] + s[k + 1..];
    s[..k] + s[k + 1..]
  }

  /** One bound of a slice `s[start:stop]` with step 1, as Python adjusts it: a missing bound
      takes its default, a negative one counts from the end, and the result is clamped to
      `[0, len]`. */
  function SliceBound(bound: Option<int>, len: nat, default: nat): (b: nat)
    requires default <= len
    ensures b <= len
    ensures bound.None? ==> b == default
    ensures bound.Some? && 0 <= bound.value <= len ==> b == bound.value
    ensures bound.Some? && len < bound.value ==> b == len
    ensures bound.Some? && bound.value < 0 <= bound.value + len ==> b == bound.value + len
    ensures bound.Some? && bound.value + len < 0 ==> b == 0
  {
    match bound
    case None => default
    case Some(i) => if i < 0 then Max(0, i + len) else Min(i, len)
  }

  /** `s[start:stop]` with step 1. */
  function Slice<X>(s: seq<X>, start: Option<int>, stop: Option<int>): (r: seq<X>)
    ensures |r| <= |s|
    ensures start.None? && stop.None? ==> r == s
    ensures forall a, b :: start == Some(a) && stop == Some(b) && 0 <= a <= b <= |s| ==> r == s[a..b]
    ensures forall b :: start.None? && stop == Some(b) && 0 <= b <= |s| ==> r == s[..b]
    ensures forall b :: start.None? && stop == Some(b) && -|s| <= b < 0 ==> r == s[..|s| + b]
    ensures forall a :: start == Some(a) && stop.None? && 0 <= a <= |s| ==> r == s[a..]
    ensures forall a :: start == Some(a) && stop.None? && -|s| <= a < 0 ==> r == s[|s| + a..]
  {
    var lo, hi := SliceBound(start, |s|, 0), SliceBound(stop, |s|, |s|);
    if lo < hi then s[lo..hi] else []
  }

  /** Writing position `n` of a concatenation writes into whichever part holds `n`. */
  lemma UpdateLeft<X>(a: seq<X>, b: seq<X>, n: nat, x: X)
    requires n < |a|
    ensures (a + b)[n := x] == a[n := x] + b
  {
  }

  lemma UpdateRight<X>(a: seq<X>, b: seq<X>, n: nat, x: X)
    requires |a| <= n < |a| + |b|
    ensures (a + b)[n := x] == a + b[n - |a| := x]
  {
  }
}
