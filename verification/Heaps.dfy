/** Binary min-heaps held in a sequence, ordered by an arbitrary strict weak order. These are the
    specification functions of the priority queue; the queue's methods are proved equal to them. */
module Heaps {

  /** `lt` is asymmetric and "not less" is transitive: exactly what a comparator must satisfy. */
  ghost predicate StrictWeakOrder<T(!new)>(lt: (T, T) -> bool) {
    && (forall a, b :: lt(a, b) ==> !lt(b, a))
    && (forall a, b, c :: lt(a, c) ==> lt(a, b) || lt(b, c))
  }

  lemma NotLessTrans<T(!new)>(lt: (T, T) -> bool, a: T, b: T, c: T)
    requires StrictWeakOrder(lt) && !lt(a, b) && !lt(b, c)
    ensures !lt(a, c)
  {}

  function Parent(i: nat): nat
    requires i > 0
  {
    (i - 1) / 2
  }

  /** Every item whose parent is at or after `k` is not less than that parent. */
  ghost predicate HeapFrom<T>(lt: (T, T) -> bool, s: seq<T>, k: nat) {
    forall j :: 1 <= j < |s| && k <= Parent(j) ==> !lt(s[j], s[Parent(j)])
  }

  ghost predicate IsHeap<T>(lt: (T, T) -> bool, s: seq<T>) {
    HeapFrom(lt, s, 0)
  }

  lemma {:induction false} RootIsLeast<T(!new)>(lt: (T, T) -> bool, s: seq<T>, j: nat)
    requires StrictWeakOrder(lt) && IsHeap(lt, s) && j < |s|
    ensures !lt(s[j], s[0])
  {
    if j > 0 {
      RootIsLeast(lt, s, Parent(j));
      NotLessTrans(lt, s[j], s[Parent(j)], s[0]);
    }
  }

  function Swap<T>(s: seq<T>, i: nat, j: nat): (r: seq<T>)
    requires i < |s| && j < |s|
    ensures |r| == |s|
  {
    s[i := s[j]][j := s[i]]
  }

  lemma SwapPermutes<T>(s: seq<T>, i: nat, j: nat)
    requires i < |s| && j < |s|
    ensures multiset(Swap(s, i, j)) == multiset(s)
  {}

  // ---------------------------------------------------------------- sifting up

  function SiftUp<T>(lt: (T, T) -> bool, s: seq<T>, i: nat): (r: seq<T>)
    requires i < |s|
    ensures |r| == |s|
    decreases i
  {
    if i == 0 || !lt(s[i], s[Parent(i)]) then s else SiftUp(lt, Swap(s, i, Parent(i)), Parent(i))
  }

  lemma {:induction false} SiftUpPermutes<T>(lt: (T, T) -> bool, s: seq<T>, i: nat)
    requires i < |s|
    ensures multiset(SiftUp(lt, s, i)) == multiset(s)
    decreases i
  {
    if i > 0 {
      SwapPermutes(s, i, Parent(i));
      SiftUpPermutes(lt, Swap(s, i, Parent(i)), Parent(i));
    }
  }

  /** Heap order everywhere except between `i` and its parent; the children of `i` respect its parent. */
  ghost predicate HeapButAt<T>(lt: (T, T) -> bool, s: seq<T>, i: nat) {
    && (forall j :: 1 <= j < |s| && j != i ==> !lt(s[j], s[Parent(j)]))
    && (forall j :: 1 <= j < |s| && i > 0 && i < |s| && Parent(j) == i ==> !lt(s[j], s[Parent(i)]))
  }

  lemma {:induction false} SiftUpMakesHeap<T(!new)>(lt: (T, T) -> bool, s: seq<T>, i: nat)
    requires StrictWeakOrder(lt) && i < |s| && HeapButAt(lt, s, i)
    ensures IsHeap(lt, SiftUp(lt, s, i))
    decreases i
  {
    if i != 0 && lt(s[i], s[Parent(i)]) {
      var p := Parent(i);
      var t := Swap(s, i, p);
      forall j | 1 <= j < |t| && j != p ensures !lt(t[j], t[Parent(j)]) {
        if Parent(j) == p && j != i { NotLessTrans(lt, s[j], s[p], s[i]); }
      }
      SiftUpMakesHeap(lt, t, p);
    }
  }

  lemma AppendThenSiftUp<T(!new)>(lt: (T, T) -> bool, s: seq<T>, x: T)
    requires StrictWeakOrder(lt) && IsHeap(lt, s)
    ensures var r := SiftUp(lt, s + [x], |s|); IsHeap(lt, r) && multiset(r) == multiset(s) + multiset{x}
  {
    SiftUpMakesHeap(lt, s + [x], |s|);
    SiftUpPermutes(lt, s + [x], |s|);
  }

  /** Forced sifting up: the item at `i` goes to the root, its ancestors move one level down. */
  function Raise<T>(s: seq<T>, i: nat): (r: seq<T>)
    requires i < |s|
    ensures |r| == |s| && r[0] == s[i]
    ensures forall j :: i < j < |s| ==> r[j] == s[j]
    ensures forall j :: 0 < j <= i ==> r[j] == s[j] || r[j] == s[Parent(j)]
    ensures i > 0 ==> r[i] == s[Parent(i)]
    decreases i
  {
    if i == 0 then s else Raise(Swap(s, i, Parent(i)), Parent(i))
  }

  lemma {:induction false} RaisePermutes<T>(s: seq<T>, i: nat)
    requires i < |s|
    ensures multiset(Raise(s, i)) == multiset(s)
    decreases i
  {
    if i > 0 {
      SwapPermutes(s, i, Parent(i));
      RaisePermutes(Swap(s, i, Parent(i)), Parent(i));
    }
  }

  lemma {:induction false} RaiseKeepsRest<T(!new)>(lt: (T, T) -> bool, s: seq<T>, i: nat)
    requires StrictWeakOrder(lt) && i < |s|
    requires forall j :: 1 <= j < |s| && j != i && Parent(j) != i ==> !lt(s[j], s[Parent(j)])
    requires forall j :: 1 <= j < |s| && i > 0 && Parent(j) == i ==> !lt(s[j], s[Parent(i)])
    ensures HeapFrom(lt, Raise(s, i), 1)
    decreases i
  {
    if i > 0 {
      var p := Parent(i);
      var t := Swap(s, i, p);
      if p > 0 {
        forall j | 1 <= j < |t| && Parent(j) == p ensures !lt(t[j], t[Parent(p)]) {
          if j != i { NotLessTrans(lt, s[j], s[p], s[Parent(p)]); }
        }
      }
      RaiseKeepsRest(lt, t, p);
    }
  }

  // ---------------------------------------------------------------- sifting down

  /** The child `_percolateDown` compares with: the right one only when strictly less than the left. */
  function BestChild<T>(lt: (T, T) -> bool, s: seq<T>, i: nat): (c: nat)
    requires 2 * i + 1 < |s|
    ensures c < |s| && c > 0 && Parent(c) == i
  {
    if 2 * i + 2 < |s| && lt(s[2 * i + 2], s[2 * i + 1]) then 2 * i + 2 else 2 * i + 1
  }

  function SiftDown<T>(lt: (T, T) -> bool, s: seq<T>, i: nat): (r: seq<T>)
    ensures |r| == |s|
    ensures forall j :: 0 <= j < i && j < |s| ==> r[j] == s[j]
    decreases |s| - i
  {
    if i < |s| / 2 && lt(s[BestChild(lt, s, i)], s[i])
    then SiftDown(lt, Swap(s, i, BestChild(lt, s, i)), BestChild(lt, s, i))
    else s
  }

  lemma {:induction false} SiftDownPermutes<T>(lt: (T, T) -> bool, s: seq<T>, i: nat)
    ensures multiset(SiftDown(lt, s, i)) == multiset(s)
    decreases |s| - i
  {
    if i < |s| / 2 {
      var c := BestChild(lt, s, i);
      SwapPermutes(s, i, c);
      SiftDownPermutes(lt, Swap(s, i, c), c);
    }
  }

  /** Heap order from `k` on, except that `i` may exceed its children; those respect `i`'s parent. */
  ghost predicate HeapButBelow<T>(lt: (T, T) -> bool, s: seq<T>, k: nat, i: nat) {
    && (forall j :: 1 <= j < |s| && k <= Parent(j) && Parent(j) != i ==> !lt(s[j], s[Parent(j)]))
    && (forall j :: 1 <= j < |s| && i > 0 && i < |s| && k <= Parent(i) && Parent(j) == i ==> !lt(s[j], s[Parent(i)]))
  }

  lemma {:induction false} SiftDownMakesHeap<T(!new)>(lt: (T, T) -> bool, s: seq<T>, k: nat, i: nat)
    requires StrictWeakOrder(lt) && k <= i && HeapButBelow(lt, s, k, i)
    ensures HeapFrom(lt, SiftDown(lt, s, i), k)
    decreases |s| - i
  {
    if i < |s| / 2 {
      var c := BestChild(lt, s, i);
      if lt(s[c], s[i]) {
        SiftDownStepKeeps(lt, s, k, i);
        hide HeapFrom, HeapButBelow, StrictWeakOrder;
        SiftDownMakesHeap(lt, Swap(s, i, c), k, c);
      } else {
        forall j | 1 <= j < |s| && Parent(j) == i ensures !lt(s[j], s[i]) {
          assert j == 2 * i + 1 || j == 2 * i + 2;
          NotLessTrans(lt, s[j], s[c], s[i]);
        }
      }
    }
  }

  lemma SiftDownStepKeeps<T(!new)>(lt: (T, T) -> bool, s: seq<T>, k: nat, i: nat)
    requires StrictWeakOrder(lt) && k <= i < |s| / 2 && HeapButBelow(lt, s, k, i)
    requires lt(s[BestChild(lt, s, i)], s[i])
    ensures HeapButBelow(lt, Swap(s, i, BestChild(lt, s, i)), k, BestChild(lt, s, i))
  {
    var c := BestChild(lt, s, i);
    var t := Swap(s, i, c);
    forall j | 1 <= j < |t| && k <= Parent(j) && Parent(j) != c ensures !lt(t[j], t[Parent(j)]) {
      if Parent(j) == i { assert j == 2 * i + 1 || j == 2 * i + 2; }
    }
  }

  /** Loops move a hole instead of swapping: filling the hole at `c` from `l` and then `l` with `x` is one swap. */
  lemma MoveHole<T>(cells: seq<T>, n: nat, c: nat, l: nat, x: T)
    requires c < n <= |cells| && l < n && c != l
    ensures cells[c := cells[l]][..n][l := x] == Swap(cells[..n][c := x], c, l)
  {}

  lemma FillHole<T>(cells: seq<T>, n: nat, c: nat, x: T)
    requires c < n <= |cells|
    ensures cells[c := x][..n] == cells[..n][c := x]
    ensures cells[c] == x ==> cells[..n][c := x] == cells[..n]
  {}

  // One step of each, for loops that follow them with the definitions hidden.

  lemma SiftUpStep<T>(lt: (T, T) -> bool, s: seq<T>, i: nat)
    requires i < |s|
    ensures SiftUp(lt, s, i) ==
      if i > 0 && lt(s[i], s[Parent(i)]) then SiftUp(lt, Swap(s, i, Parent(i)), Parent(i)) else s
  {}

  lemma RaiseStep<T>(s: seq<T>, i: nat)
    requires i < |s|
    ensures Raise(s, i) == if i > 0 then Raise(Swap(s, i, Parent(i)), Parent(i)) else s
  {}

  lemma SiftDownStep<T>(lt: (T, T) -> bool, s: seq<T>, i: nat)
    ensures SiftDown(lt, s, i) ==
      if i < |s| / 2 && lt(s[BestChild(lt, s, i)], s[i])
      then SiftDown(lt, Swap(s, i, BestChild(lt, s, i)), BestChild(lt, s, i)) else s
  {}

  // ---------------------------------------------------------------- queue operations on the items

  /** The last item takes the place of the root. */
  function LastToRoot<T>(s: seq<T>): (r: seq<T>)
    requires |s| > 1
    ensures |r| == |s| - 1 && multiset(r) + multiset{s[0]} == multiset(s)
  {
    var n := |s| - 1;
    assert s == s[..n] + [s[n]];
    assert s[..n] == [s[0]] + s[..n][1..];
    s[..n][0 := s[n]]
  }

  function Poll<T>(lt: (T, T) -> bool, s: seq<T>): (r: seq<T>)
    requires |s| > 0
    ensures |r| == |s| - 1 && multiset(r) + multiset{s[0]} == multiset(s)
  {
    if |s| == 1 then assert s == [s[0]]; [] else SiftDownPermutes(lt, LastToRoot(s), 0); SiftDown(lt, LastToRoot(s), 0)
  }

  function RemoveAt<T>(lt: (T, T) -> bool, s: seq<T>, i: nat): (r: seq<T>)
    requires i < |s|
    ensures |r| == |s| - 1 && multiset(r) + multiset{s[i]} == multiset(s)
  {
    RaisePermutes(s, i);
    Poll(lt, Raise(s, i))
  }

  function Heapified<T>(lt: (T, T) -> bool, s: seq<T>, i: int): (r: seq<T>)
    requires -1 <= i
    ensures |r| == |s| && multiset(r) == multiset(s)
    decreases i + 1
  {
    if i < 0 then s else SiftDownPermutes(lt, s, i); Heapified(lt, SiftDown(lt, s, i), i - 1)
  }

  lemma PollKeepsHeap<T(!new)>(lt: (T, T) -> bool, s: seq<T>)
    requires StrictWeakOrder(lt) && |s| > 0 && HeapFrom(lt, s, 1)
    ensures IsHeap(lt, Poll(lt, s))
  {
    if |s| > 1 { SiftDownMakesHeap(lt, LastToRoot(s), 0, 0); }
  }

  lemma RemoveAtKeepsHeap<T(!new)>(lt: (T, T) -> bool, s: seq<T>, i: nat)
    requires StrictWeakOrder(lt) && i < |s| && IsHeap(lt, s)
    ensures IsHeap(lt, RemoveAt(lt, s, i))
  {
    forall j | 1 <= j < |s| && i > 0 && Parent(j) == i ensures !lt(s[j], s[Parent(i)]) {
      NotLessTrans(lt, s[j], s[i], s[Parent(i)]);
    }
    RaiseKeepsRest(lt, s, i);
    PollKeepsHeap(lt, Raise(s, i));
  }

  lemma {:induction false} HeapifiedIsHeap<T(!new)>(lt: (T, T) -> bool, s: seq<T>, i: int)
    requires StrictWeakOrder(lt) && -1 <= i && HeapFrom(lt, s, i + 1)
    ensures IsHeap(lt, Heapified(lt, s, i))
    decreases i + 1
  {
    if i >= 0 {
      assert HeapButBelow(lt, s, i, i);
      hide HeapFrom, HeapButBelow, SiftDown, StrictWeakOrder;
      SiftDownMakesHeap(lt, s, i, i);
      HeapifiedIsHeap(lt, SiftDown(lt, s, i), i - 1);
    }
  }
}
