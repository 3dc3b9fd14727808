/** The array-backed priority queue. `cells` may be longer than `size`: polling leaves the vacated cell
    behind, as the JavaScript does; only the first `size` cells belong to the queue. */
module FastPriorityQueues {
  import opened Heaps
  import opened HeapScans
  import opened Frontiers

  datatype Option<T> = None | Some(value: T)

  /** In the loop of `kSmallest`: a position leaves the second queue and its children join it. */
  method NextPosition(fpq: FastPriorityQueue<nat>, n: nat) returns (small: nat)
    requires fpq.Valid() && fpq.size > 0
    modifies fpq
    ensures fpq.Valid() && small == old(fpq.Items())[0]
    ensures fpq.Items() == Advance(fpq.compare, old(fpq.Items()), n)
  {
    hide StrictWeakOrder, IsHeap, HeapFrom, Heaps.Poll, SiftUp;
    var polled := fpq.Poll();
    small := polled.value;
    var l := 2 * small + 1;
    var r := l + 1;
    AddPosition(fpq, l, n);
    AddPosition(fpq, r, n);
  }

  method AddPosition(fpq: FastPriorityQueue<nat>, i: nat, n: nat)
    requires fpq.Valid()
    modifies fpq
    ensures fpq.Valid() && fpq.Items() == Joined(fpq.compare, old(fpq.Items()), i, n)
  {
    hide StrictWeakOrder, HeapFrom, SiftUp;
    if i < n { fpq.Add(i); }
  }

  class FastPriorityQueue<T(!new)> {
    var cells: seq<T>
    var size: nat
    const compare: (T, T) -> bool

    ghost predicate Valid()
      reads this
      ensures Valid() ==> ValidButRoot()
    {
      size <= |cells| && StrictWeakOrder(compare) && IsHeap(compare, cells[..size])
    }

    /** What `Poll` needs: the root may be out of place. */
    ghost predicate ValidButRoot()
      reads this
    {
      size <= |cells| && StrictWeakOrder(compare) && HeapFrom(compare, cells[..size], 1)
    }

    ghost function Items(): seq<T>
      reads this
      requires size <= |cells|
    {
      cells[..size]
    }

    constructor (comparator: (T, T) -> bool)
      requires StrictWeakOrder(comparator)
      ensures Valid() && compare == comparator && size == 0 && cells == []
    {
      cells, size, compare := [], 0, comparator;
    }

    method Clone() returns (fpq: FastPriorityQueue<T>)
      requires Valid()
      ensures fresh(fpq) && fpq.Valid() && fpq.compare == compare && fpq.Items() == Items()
    {
      fpq := new FastPriorityQueue<T>(compare);
      fpq.size := size;
      for i := 0 to size
        invariant fpq.size == size && fpq.cells == cells[..i]
      {
        fpq.cells := fpq.cells + [cells[i]];
      }
    }

    method Add(myval: T)
      requires Valid()
      modifies this`cells, this`size
      ensures Valid() && Items() == SiftUp(compare, old(Items()) + [myval], old(size))
      ensures multiset(Items()) == multiset(old(Items())) + multiset{myval}
    {
      hide StrictWeakOrder, IsHeap, HeapFrom, SiftUp, Swap;
      ghost var v := Items() + [myval];
      AppendThenSiftUp(compare, Items(), myval);
      var i := size;
      cells := if size < |cells| then cells[size := myval] else cells + [myval];
      size := size + 1;
      assert Items() == v;
      FillHole(cells, size, i, myval);
      while i > 0
        invariant 0 <= i < size <= |cells| && size == old(size) + 1
        invariant v == Items()[i := myval]
        invariant SiftUp(compare, v, i) == SiftUp(compare, old(Items()) + [myval], size - 1)
      {
        SiftUpStep(compare, v, i);
        var p := (i - 1) / 2;
        var ap := cells[p];
        if !compare(myval, ap) { break; }
        MoveHole(cells, size, i, p, myval);
        v := Swap(v, i, p);
        cells := cells[i := ap];
        i := p;
      }
      SiftUpStep(compare, v, i);
      FillHole(cells, size, i, myval);
      cells := cells[i := myval];
    }

    method PercolateDown(i: nat)
      requires i < size <= |cells|
      modifies this`cells
      ensures |cells| == old(|cells|) && Items() == SiftDown(compare, old(Items()), i)
    {
      hide SiftDown, Swap;
      var hsize := size / 2;
      var ai := cells[i];
      var c := i;
      ghost var v := Items();
      FillHole(cells, size, c, ai);
      while c < hsize
        invariant i <= c < size <= |cells| && |cells| == old(|cells|)
        invariant v == Items()[c := ai] && SiftDown(compare, v, c) == SiftDown(compare, old(Items()), i)
        decreases size - c
      {
        SiftDownStep(compare, v, c);
        var l := 2 * c + 1;
        var r := l + 1;
        var bestc := cells[l];
        if r < size && compare(cells[r], bestc) {
          l := r;
          bestc := cells[r];
        }
        if !compare(bestc, ai) { break; }
        MoveHole(cells, size, c, l, ai);
        v := Swap(v, c, l);
        cells := cells[c := bestc];
        c := l;
      }
      SiftDownStep(compare, v, c);
      FillHole(cells, size, c, ai);
      cells := cells[c := ai];
    }

    method PercolateUp(i: nat, force: bool)
      requires i < size <= |cells|
      modifies this`cells
      ensures |cells| == old(|cells|)
      ensures Items() == if force then Raise(old(Items()), i) else SiftUp(compare, old(Items()), i)
    {
      hide Raise, SiftUp, Swap;
      var myval := cells[i];
      var c := i;
      ghost var v := Items();
      FillHole(cells, size, c, myval);
      while c > 0
        invariant 0 <= c <= i < size <= |cells| && |cells| == old(|cells|)
        invariant v == Items()[c := myval]
        invariant force ==> Raise(v, c) == Raise(old(Items()), i)
        invariant !force ==> SiftUp(compare, v, c) == SiftUp(compare, old(Items()), i)
      {
        RaiseStep(v, c);
        SiftUpStep(compare, v, c);
        var p := (c - 1) / 2;
        var ap := cells[p];
        if !force && !compare(myval, ap) { break; }
        MoveHole(cells, size, c, p, myval);
        v := Swap(v, c, p);
        cells := cells[c := ap];
        c := p;
      }
      RaiseStep(v, c);
      SiftUpStep(compare, v, c);
      FillHole(cells, size, c, myval);
      cells := cells[c := myval];
    }

    /** Replaces the contents by `arr`, heap-ordered. On an empty array the only turn of the loop stores
        `undefined` in a cell that does not belong to the queue. */
    method Heapify(arr: seq<T>, undefined: T)
      requires StrictWeakOrder(compare)
      modifies this`cells, this`size
      ensures Valid() && multiset(Items()) == multiset(arr)
      ensures if arr == [] then cells == [undefined] else |cells| == |arr|
    {
      cells := arr;
      size := |arr|;
      assert Items() == arr;
      var i := size / 2;
      HeapifiedIsHeap(compare, arr, i);
      if size == 0 {
        cells := [undefined];
        return;
      }
      while i >= 0
        invariant -1 <= i <= size / 2 && size == |cells| == |arr|
        invariant Heapified(compare, Items(), i) == Heapified(compare, arr, size / 2)
      {
        PercolateDown(i);
        i := i - 1;
      }
    }

    method Peek() returns (r: Option<T>)
      requires Valid()
      ensures if size == 0 then r == None
              else r.Some? && r.value in Items() && forall x :: x in Items() ==> !compare(x, r.value)
    {
      if size == 0 { return None; }
      forall j | 0 <= j < size ensures !compare(cells[j], cells[0]) { RootIsLeast(compare, Items(), j); }
      return Some(cells[0]);
    }

    method Poll() returns (r: Option<T>)
      requires ValidButRoot()
      modifies this`cells, this`size
      ensures |cells| == old(|cells|) && size <= |cells| && (old(Valid()) || old(size) > 0 ==> Valid())
      ensures old(size) == 0 ==> r == None && Items() == old(Items())
      ensures old(size) > 0 ==> r == Some(old(Items())[0]) && Items() == Heaps.Poll(compare, old(Items()))
    {
      ghost var was := Items();
      if size > 0 { PollKeepsHeap(compare, was); }
      if size == 0 { return None; }
      r := Some(cells[0]);
      if size > 1 {
        size := size - 1;
        cells := cells[0 := cells[size]];
        assert Items() == LastToRoot(was);
        PercolateDown(0);
      } else {
        size := size - 1;
      }
    }

    /** Adds `myval` in exchange for a least item; an empty queue stays empty. */
    method ReplaceTop(myval: T) returns (r: Option<T>)
      requires Valid()
      modifies this`cells
      ensures Valid() && |cells| == old(|cells|)
      ensures old(size) == 0 ==> r == None && Items() == old(Items())
      ensures old(size) > 0 ==>
        && r == Some(old(Items())[0])
        && multiset(Items()) + multiset{r.value} == multiset(old(Items())) + multiset{myval}
    {
      if size == 0 { return None; }
      r := Some(cells[0]);
      ghost var was := Items();
      cells := cells[0 := myval];
      assert Items() == was[0 := myval];
      SiftDownMakesHeap(compare, Items(), 0, 0);
      SiftDownPermutes(compare, Items(), 0);
      PercolateDown(0);
    }

    method RemoveAt(index: int) returns (r: Option<T>)
      requires Valid()
      modifies this`cells, this`size
      ensures Valid() && |cells| == old(|cells|)
      ensures index > old(size) - 1 || index < 0 ==> r == None && Items() == old(Items())
      ensures 0 <= index < old(size) ==>
        r == Some(old(Items())[index]) && Items() == Heaps.RemoveAt(compare, old(Items()), index)
    {
      if index > size - 1 || index < 0 { return None; }
      RemoveAtKeepsHeap(compare, Items(), index);
      PercolateUp(index, true);
      r := Poll();
    }

    /** Removes the first item, in array order, that the comparator cannot tell from `myval`. */
    method Remove(myval: T) returns (removed: bool)
      requires Valid()
      modifies this`cells, this`size
      ensures Valid()
      ensures removed <==> exists x :: x in old(Items()) && !compare(x, myval) && !compare(myval, x)
      ensures !removed ==> Items() == old(Items())
      ensures removed ==> exists x :: !compare(x, myval) && !compare(myval, x)
                                   && multiset(Items()) + multiset{x} == multiset(old(Items()))
    {
      for i := 0 to size
        invariant Valid() && Items() == old(Items())
        invariant forall j :: 0 <= j < i ==> compare(cells[j], myval) || compare(myval, cells[j])
      {
        if !compare(cells[i], myval) && !compare(myval, cells[i]) {
          ghost var x := cells[i];
          assert x in Items();
          var _ := RemoveAt(i);
          return true;
        }
      }
      return false;
    }

    method BatchRemove(callback: T -> bool, limit: nat) returns (retArr: seq<T>)
      requires Valid()
      modifies this`cells, this`size
      ensures Valid()
      ensures (retArr, Items()) == HeapScans.BatchRemove(compare, old(Items()), callback, limit)
      ensures multiset(retArr) + multiset(Items()) == multiset(old(Items()))
      ensures (forall x :: x in retArr ==> callback(x)) && (limit > 0 ==> |retArr| <= limit)
    {
      var room := if limit == 0 then size else limit;
      retArr := [];
      hide StrictWeakOrder, IsHeap, HeapFrom, Heaps.RemoveAt, Scan, Scanning;
      ghost var whole := Scan(compare, Items(), callback, 0, room);
      ScanSound(compare, Items(), callback, 0, room);
      ScanStarts(compare, Items(), callback, room);
      var i := 0;
      while i < size && |retArr| < room
        invariant Valid() && 0 <= i && |retArr| <= room
        invariant Scanning(compare, Items(), callback, i, room - |retArr|, retArr, whole)
        decreases size, size - i
      {
        if callback(cells[i]) {
          ScanTakes(compare, Items(), callback, i, room - |retArr|, retArr, whole);
          var r := RemoveAt(i);
          retArr := retArr + [r.value];
          i := i / 2;
        } else {
          ScanPasses(compare, Items(), callback, i, room - |retArr|, retArr, whole);
          i := i + 1;
        }
      }
      ScanEnds(compare, Items(), callback, i, room - |retArr|, retArr, whole);
    }

    method RemoveOne(callback: T -> bool) returns (r: Option<T>)
      requires Valid()
      modifies this`cells, this`size
      ensures Valid()
      ensures r.Some? <==> exists x :: x in old(Items()) && callback(x)
      ensures r == None ==> Items() == old(Items())
      ensures r.Some? ==> callback(r.value) && multiset(Items()) + multiset{r.value} == multiset(old(Items()))
    {
      ghost var was := Items();
      ScanOneFindsFirst(compare, was, callback, 0);
      var arr := BatchRemove(callback, 1);
      r := if |arr| > 0 then Some(arr[0]) else None;
    }

    /** Removes matches, up to `limit` if it is not zero; unless it stops at the limit it leaves none behind when
        no match in the queue lies between two of its items that do not match. */
    method RemoveMany(callback: T -> bool, limit: nat) returns (retArr: seq<T>)
      requires Valid()
      modifies this`cells, this`size
      ensures Valid()
      ensures multiset(retArr) + multiset(Items()) == multiset(old(Items()))
      ensures (forall x :: x in retArr ==> callback(x)) && (limit > 0 ==> |retArr| <= limit)
      ensures NoMatchBetweenIn(compare, callback, multiset(old(Items()))) && (limit == 0 || |retArr| < limit) ==>
        forall x :: x in Items() ==> !callback(x)
    {
      ghost var was := Items();
      retArr := BatchRemove(callback, limit);
      hide IsHeap, StrictWeakOrder, NoMatchBetweenIn, HeapScans.BatchRemove;
      if NoMatchBetweenIn(compare, callback, multiset(was)) && (limit == 0 || |retArr| < limit) {
        BatchRemoveFindsAll(compare, was, callback, limit);
      }
    }

    /** The items `forEach` passes to its callback, in call order; they come off a clone. */
    method ForEach() returns (calls: seq<T>)
      requires Valid()
      ensures calls == Drain(compare, Items())
      ensures multiset(calls) == multiset(Items()) && Sorted(compare, calls)
    {
      DrainSorts(compare, Items());
      DrainPermutes(compare, Items());
      calls := [];
      hide StrictWeakOrder, IsHeap, HeapFrom, Sorted, Drain, Heaps.Poll;
      if size == 0 { assert Drain(compare, Items()) == []; return; }
      var fpq := Clone();
      while fpq.size > 0
        invariant fresh(fpq) && fpq.Valid() && fpq.compare == compare
        invariant calls + Drain(compare, fpq.Items()) == Drain(compare, Items())
        decreases fpq.size
      {
        DrainUnfold(compare, fpq.Items(), calls);
        var x := fpq.Poll();
        calls := calls + [x.value];
      }
    }

    /** Best-first search over the heap's positions, with a second queue ordering positions by the items there. */
    method KSmallest(k: nat) returns (smallest: seq<T>)
      requires Valid()
      ensures HeapScans.KSmallest(compare, Items(), k, smallest)
      ensures smallest == if size == 0 then [] else BestFirst(compare, Items(), [0], if size < k then size else k)
    {
      hide StrictWeakOrder, IsHeap, HeapFrom, ByItem, SiftUp, Advance, HeapScans.KSmallest, BestFirst, Searching;
      if size == 0 {
        NothingToSearch(compare, Items(), k);
        return [];
      }
      var arr := cells[..size];
      ByItemOrders(compare, arr);
      var fpq := new FastPriorityQueue<nat>(ByItem(compare, arr));
      var count := if size < k then size else k;
      smallest := [];
      ghost var seen: set<nat>, whole := {}, BestFirst(compare, arr, [0], count);
      fpq.Add(0);
      OnePosition(fpq.compare);
      assert fpq.Items() == [0];
      SearchBegins(compare, arr, count);
      while |smallest| < count
        invariant fresh(fpq) && fpq.Valid() && fpq.compare == ByItem(compare, arr) && |smallest| <= count
        invariant Searching(compare, arr, fpq.Items(), seen, smallest, count, whole)
      {
        SearchGoesOn(compare, arr, fpq.Items(), seen, smallest, count, whole);
        var small := NextPosition(fpq, size);
        smallest := smallest + [cells[small]];
        seen := seen + {small};
      }
      SearchEnds(compare, arr, fpq.Items(), seen, smallest, k, whole);
    }
  }
}
