/** The search frontier of `kSmallest`: positions not yet taken whose parent has been. */
module Frontiers {
  import opened Heaps
  import opened HeapScans

  /** The item at position `i`. Positions past the end are never looked up; they read as the root. */
  function At<T>(s: seq<T>, i: nat): T
    requires |s| > 0
  {
    if i < |s| then s[i] else s[0]
  }

  /** The comparator `kSmallest` gives its second queue. */
  function ByItem<T(!new)>(lt: (T, T) -> bool, s: seq<T>): (r: (nat, nat) -> bool)
    requires |s| > 0
  {
    (a: nat, b: nat) => lt(At(s, a), At(s, b))
  }

  lemma ByItemOrders<T(!new)>(lt: (T, T) -> bool, s: seq<T>)
    requires StrictWeakOrder(lt) && |s| > 0
    ensures StrictWeakOrder(ByItem(lt, s))
  {
    var r := ByItem(lt, s);
    forall a, b | r(a, b) ensures !r(b, a) {
      assert lt(At(s, a), At(s, b));
    }
    forall a, b, c | r(a, c) ensures r(a, b) || r(b, c) {
      assert lt(At(s, a), At(s, c));
      assert lt(At(s, a), At(s, b)) || lt(At(s, b), At(s, c));
    }
  }

  ghost predicate IsFrontier(f: multiset<nat>, seen: set<nat>, n: nat) {
    && (forall i: nat :: f[i] == if i < n && i !in seen && (i == 0 || Parent(i) in seen) then 1 else 0)
    && (forall i :: i in seen ==> i < n && (i > 0 ==> Parent(i) in seen))
  }

  ghost function Present(i: nat, n: nat): multiset<nat> {
    if i < n then multiset{i} else multiset{}
  }

  ghost function Children(i: nat, n: nat): multiset<nat> { Present(2 * i + 1, n) + Present(2 * i + 2, n) }

  /** Taking `i` off the frontier and adding its children that exist gives the next frontier. */
  lemma FrontierAdvances(f: multiset<nat>, seen: set<nat>, n: nat, i: nat, g: multiset<nat>)
    requires IsFrontier(f, seen, n) && i in f
    requires g == f - multiset{i} + Children(i, n)
    ensures IsFrontier(g, seen + {i}, n)
  {
    forall j: nat ensures g[j] == if j < n && j !in seen + {i} && (j == 0 || Parent(j) in seen + {i}) then 1 else 0 {
      if j > 0 {
        assert Parent(j) == i <==> j == 2 * i + 1 || j == 2 * i + 2;
        assert Parent(j) in seen + {i} <==> Parent(j) in seen || Parent(j) == i;
      }
      assert f[i] == 1;
    }
  }

  /** Every untaken position has an ancestor on the frontier, whose item is not greater. */
  lemma {:induction false} FrontierCovers<T(!new)>(lt: (T, T) -> bool, s: seq<T>, f: multiset<nat>, seen: set<nat>, i: nat)
      returns (a: nat)
    requires StrictWeakOrder(lt) && IsHeap(lt, s) && IsFrontier(f, seen, |s|) && i < |s| && i !in seen
    ensures a in f && a < |s| && !lt(s[i], s[a])
    decreases i
  {
    if i in f {
      a := i;
    } else {
      a := FrontierCovers(lt, s, f, seen, Parent(i));
      NotLessTrans(lt, s[i], s[Parent(i)], s[a]);
    }
  }

  lemma FrontierNeverDry(front: seq<nat>, seen: set<nat>, n: nat)
    requires IsFrontier(multiset(front), seen, n) && |seen| < n
    ensures |front| > 0
  {
    if |front| == 0 {
      forall i: nat | i < n ensures i in seen { SeenAll(multiset(front), seen, n, i); }
      SubsetSize(Range(n), seen);
    }
  }

  lemma {:induction false} SeenAll(f: multiset<nat>, seen: set<nat>, n: nat, i: nat)
    requires IsFrontier(f, seen, n) && |f| == 0 && i < n
    ensures i in seen
    decreases i
  {
    if i > 0 { SeenAll(f, seen, n, Parent(i)); }
    assert f[i] == 0;
  }

  ghost function Range(n: nat): (r: set<nat>)
    ensures |r| == n && forall i: nat :: i in r <==> i < n
  {
    if n == 0 then {} else Range(n - 1) + {n - 1}
  }

  lemma SubsetSize<T>(a: set<T>, b: set<T>)
    requires a <= b
    ensures |a| <= |b|
  {
    assert b == a + (b - a);
  }

  // ---------------------------------------------------------------- items at the positions taken

  ghost function ItemsIn<T>(s: seq<T>, seen: set<nat>): (m: multiset<T>) {
    if |s| == 0 then multiset{}
    else ItemsIn(s[..|s| - 1], seen) + if |s| - 1 in seen then multiset{s[|s| - 1]} else multiset{}
  }

  lemma {:induction false} ItemsInNone<T>(s: seq<T>)
    ensures ItemsIn(s, {}) == multiset{}
  {
    if |s| > 0 { ItemsInNone(s[..|s| - 1]); }
  }

  lemma {:induction false} ItemsInAdd<T>(s: seq<T>, seen: set<nat>, i: nat)
    requires i !in seen
    ensures ItemsIn(s, seen + {i}) == ItemsIn(s, seen) + if i < |s| then multiset{s[i]} else multiset{}
  {
    if |s| > 0 { ItemsInAdd(s[..|s| - 1], seen, i); }
  }

  lemma {:induction false} ItemsInSplit<T>(s: seq<T>, seen: set<nat>, rest: set<nat>)
    requires forall i: nat :: i < |s| ==> (i in rest <==> i !in seen)
    ensures ItemsIn(s, seen) + ItemsIn(s, rest) == multiset(s)
  {
    if |s| > 0 {
      ItemsInSplit(s[..|s| - 1], seen, rest);
      assert s == s[..|s| - 1] + [s[|s| - 1]];
    }
  }

  lemma {:induction false} ItemsInAt<T>(s: seq<T>, seen: set<nat>, x: T) returns (i: nat)
    requires x in ItemsIn(s, seen)
    ensures i < |s| && i in seen && s[i] == x
  {
    if |s| - 1 in seen && s[|s| - 1] == x {
      i := |s| - 1;
    } else {
      i := ItemsInAt(s[..|s| - 1], seen, x);
    }
  }

  /** `out` is sorted, holds the items at the positions taken, and no other item is less than any of them. */
  ghost predicate Picked<T>(lt: (T, T) -> bool, s: seq<T>, seen: set<nat>, out: seq<T>) {
    && Sorted(lt, out)
    && multiset(out) == ItemsIn(s, seen)
    && (forall i, j :: 0 <= i < |out| && 0 <= j < |s| && j !in seen ==> !lt(s[j], out[i]))
  }

  lemma SearchStarts<T>(lt: (T, T) -> bool, s: seq<T>)
    requires |s| > 0
    ensures IsFrontier(multiset{0}, {}, |s|) && Picked(lt, s, {}, [])
  {
    ItemsInNone(s);
  }

  lemma NothingToSearch<T>(lt: (T, T) -> bool, s: seq<T>, k: nat)
    requires |s| == 0
    ensures KSmallest(lt, s, k, [])
  {}

  /** The root of the second queue is the next position to take. */
  lemma PickRoot<T(!new)>(lt: (T, T) -> bool, s: seq<T>, front: seq<nat>, seen: set<nat>, out: seq<T>)
    requires StrictWeakOrder(lt) && IsHeap(lt, s) && |s| > 0 && Picked(lt, s, seen, out)
    requires |front| > 0 && IsFrontier(multiset(front), seen, |s|) && IsHeap(ByItem(lt, s), front)
    ensures var i := front[0]; i < |s| && i !in seen && Picked(lt, s, seen + {i}, out + [s[i]])
  {
    var i := front[0];
    assert i in multiset(front);
    ItemsInAdd(s, seen, i);
    ByItemOrders(lt, s);
    forall j | 0 <= j < |s| && j !in seen ensures !lt(s[j], s[i]) {
      var a := FrontierCovers(lt, s, multiset(front), seen, j);
      var m :| 0 <= m < |front| && front[m] == a;
      RootIsLeast(ByItem(lt, s), front, m);
      assert !ByItem(lt, s)(a, i);
      assert At(s, a) == s[a] && At(s, i) == s[i];
      NotLessTrans(lt, s[j], s[a], s[i]);
    }
    var next := out + [s[i]];
    assert multiset(next) == multiset(out) + multiset{s[i]};
  }

  lemma PickedIsKSmallest<T>(lt: (T, T) -> bool, s: seq<T>, seen: set<nat>, out: seq<T>, k: nat)
    requires Picked(lt, s, seen, out) && |out| == (if k < |s| then k else |s|)
    ensures KSmallest(lt, s, k, out)
  {
    var rest := Range(|s|) - seen;
    ItemsInSplit(s, seen, rest);
    forall x, y | x in out && y in multiset(s) - multiset(out) ensures !lt(y, x) {
      assert y in ItemsIn(s, rest);
      var j := ItemsInAt(s, rest, y);
      var i :| 0 <= i < |out| && out[i] == x;
    }
  }

  // ---------------------------------------------------------------- the search itself

  /** The second queue after adding a position that exists. */
  function Joined(lt: (nat, nat) -> bool, front: seq<nat>, i: nat, n: nat): seq<nat> {
    if i < n then SiftUp(lt, front + [i], |front|) else front
  }

  /** The second queue after one turn of the loop. */
  function Advance(lt: (nat, nat) -> bool, front: seq<nat>, n: nat): seq<nat>
    requires |front| > 0
  {
    Joined(lt, Joined(lt, Poll(lt, front), 2 * front[0] + 1, n), 2 * front[0] + 2, n)
  }

  function BestFirst<T(!new)>(lt: (T, T) -> bool, s: seq<T>, front: seq<nat>, k: nat): seq<T>
    requires |s| > 0
    decreases k
  {
    if k == 0 || |front| == 0 then []
    else [At(s, front[0])] + BestFirst(lt, s, Advance(ByItem(lt, s), front, |s|), k - 1)
  }

  lemma JoinedCounts(lt: (nat, nat) -> bool, front: seq<nat>, i: nat, n: nat)
    ensures multiset(Joined(lt, front, i, n)) == multiset(front) + Present(i, n)
  {
    if i < n { SiftUpPermutes(lt, front + [i], |front|); }
  }

  lemma AdvanceCounts(lt: (nat, nat) -> bool, front: seq<nat>, n: nat)
    requires |front| > 0
    ensures multiset(Advance(lt, front, n)) == multiset(front) - multiset{front[0]} + Children(front[0], n)
  {
    hide Poll, Joined;
    var i, polled := front[0], Poll(lt, front);
    JoinedCounts(lt, polled, 2 * i + 1, n);
    JoinedCounts(lt, Joined(lt, polled, 2 * i + 1, n), 2 * i + 2, n);
    assert multiset(polled) == multiset(front) - multiset{i};
  }

  lemma OnePosition(lt: (nat, nat) -> bool)
    ensures SiftUp(lt, [] + [0], 0) == [0]
  {}

  lemma BestFirstStep<T(!new)>(lt: (T, T) -> bool, s: seq<T>, front: seq<nat>, k: nat, before: seq<T>)
    requires |s| > 0 && k > 0 && |front| > 0
    ensures before + BestFirst(lt, s, front, k) ==
      (before + [At(s, front[0])]) + BestFirst(lt, s, Advance(ByItem(lt, s), front, |s|), k - 1)
  {
    hide Advance, ByItem;
    ConcatAssoc(before, [At(s, front[0])], BestFirst(lt, s, Advance(ByItem(lt, s), front, |s|), k - 1));
  }

  lemma BestFirstEnds<T(!new)>(lt: (T, T) -> bool, s: seq<T>, front: seq<nat>, before: seq<T>)
    requires |s| > 0
    ensures before + BestFirst(lt, s, front, 0) == before
  {}

  /** The state of the search: the frontier, the positions taken, the items there, and what is to come. */
  ghost predicate Searching<T(!new)>(lt: (T, T) -> bool, s: seq<T>, front: seq<nat>, seen: set<nat>, out: seq<T>, k: nat,
                                     whole: seq<T>)
    requires |s| > 0
  {
    && IsFrontier(multiset(front), seen, |s|) && |out| == |seen| <= k && Picked(lt, s, seen, out)
    && out + BestFirst(lt, s, front, k - |out|) == whole
  }

  lemma SearchBegins<T(!new)>(lt: (T, T) -> bool, s: seq<T>, k: nat)
    requires |s| > 0
    ensures Searching(lt, s, [0], {}, [], k, BestFirst(lt, s, [0], k))
  {
    hide BestFirst;
    SearchStarts(lt, s);
    assert [] + BestFirst(lt, s, [0], k) == BestFirst(lt, s, [0], k);
  }

  lemma SearchGoesOn<T(!new)>(lt: (T, T) -> bool, s: seq<T>, front: seq<nat>, seen: set<nat>, out: seq<T>, k: nat,
                              whole: seq<T>)
    requires StrictWeakOrder(lt) && IsHeap(lt, s) && |s| > 0 && |out| < k <= |s|
    requires Searching(lt, s, front, seen, out, k, whole) && IsHeap(ByItem(lt, s), front)
    ensures |front| > 0 && var i := front[0];
      && i < |s|
      && Searching(lt, s, Advance(ByItem(lt, s), front, |s|), seen + {i}, out + [s[i]], k, whole)
  {
    hide StrictWeakOrder, IsHeap, IsFrontier, Picked, BestFirst, Advance, ByItem, Children;
    FrontierNeverDry(front, seen, |s|);
    PickRoot(lt, s, front, seen, out);
    BestFirstStep(lt, s, front, k - |out|, out);
    AdvanceCounts(ByItem(lt, s), front, |s|);
    FrontierAdvances(multiset(front), seen, |s|, front[0], multiset(Advance(ByItem(lt, s), front, |s|)));
  }

  lemma SearchEnds<T(!new)>(lt: (T, T) -> bool, s: seq<T>, front: seq<nat>, seen: set<nat>, out: seq<T>, k: nat,
                            whole: seq<T>)
    requires |s| > 0 && |out| == (if k < |s| then k else |s|)
    requires Searching(lt, s, front, seen, out, |out|, whole)
    ensures KSmallest(lt, s, k, out) && out == whole
  {
    hide Picked, IsFrontier, KSmallest;
    BestFirstEnds(lt, s, front, out);
    PickedIsKSmallest(lt, s, seen, out, k);
  }

  lemma AdvanceKeepsHeap(lt: (nat, nat) -> bool, front: seq<nat>, n: nat)
    requires StrictWeakOrder(lt) && IsHeap(lt, front) && |front| > 0
    ensures IsHeap(lt, Advance(lt, front, n))
  {
    PollKeepsHeap(lt, front);
    hide StrictWeakOrder, IsHeap, Poll, Joined;
    var i, polled := front[0], Poll(lt, front);
    JoinedKeepsHeap(lt, polled, 2 * i + 1, n);
    JoinedKeepsHeap(lt, Joined(lt, polled, 2 * i + 1, n), 2 * i + 2, n);
  }

  lemma JoinedKeepsHeap(lt: (nat, nat) -> bool, front: seq<nat>, i: nat, n: nat)
    requires StrictWeakOrder(lt) && IsHeap(lt, front)
    ensures IsHeap(lt, Joined(lt, front, i, n))
  {
    hide StrictWeakOrder, IsHeap;
    if i < n { AppendThenSiftUp(lt, front, i); }
  }

  lemma {:induction false} SearchSelects<T(!new)>(lt: (T, T) -> bool, s: seq<T>, front: seq<nat>, seen: set<nat>,
                                                  out: seq<T>, k: nat, whole: seq<T>)
    requires StrictWeakOrder(lt) && IsHeap(lt, s) && |s| > 0 && |out| <= k <= |s|
    requires Searching(lt, s, front, seen, out, k, whole) && IsHeap(ByItem(lt, s), front)
    ensures KSmallest(lt, s, k, whole)
    decreases k - |out|
  {
    hide StrictWeakOrder, IsHeap, Searching, Advance, ByItem, KSmallest;
    if |out| == k {
      SearchEnds(lt, s, front, seen, out, k, whole);
    } else {
      SearchGoesOn(lt, s, front, seen, out, k, whole);
      ByItemOrders(lt, s);
      AdvanceKeepsHeap(ByItem(lt, s), front, |s|);
      var i := front[0];
      SearchSelects(lt, s, Advance(ByItem(lt, s), front, |s|), seen + {i}, out + [s[i]], k, whole);
    }
  }

  /** The best-first search of any heap lists its k smallest items. */
  lemma BestFirstSelects<T(!new)>(lt: (T, T) -> bool, s: seq<T>, k: nat)
    requires StrictWeakOrder(lt) && IsHeap(lt, s) && 0 < |s| && k <= |s|
    ensures KSmallest(lt, s, k, BestFirst(lt, s, [0], k))
  {
    SearchBegins(lt, s, k);
    assert IsHeap(ByItem(lt, s), [0]);
    hide StrictWeakOrder, IsHeap, Searching, KSmallest, BestFirst;
    SearchSelects(lt, s, [0], {}, [], k, BestFirst(lt, s, [0], k));
  }

  // ---------------------------------------------------------------- ties

  /** Pairs compared by their first halves. */
  predicate FirstLess(a: (int, int), b: (int, int)) { a.0 < b.0 }

  /** On a heap with a tie the search and repeated polling give the tied items in different orders. */
  lemma TiesMayDiffer()
    ensures StrictWeakOrder(FirstLess) && IsHeap(FirstLess, [(1, 1), (1, 1), (1, 2)])
    ensures BestFirst(FirstLess, [(1, 1), (1, 1), (1, 2)], [0], 3) == [(1, 1), (1, 1), (1, 2)]
    ensures Drain(FirstLess, [(1, 1), (1, 1), (1, 2)]) == [(1, 1), (1, 2), (1, 1)]
  {
    hide Drain, BestFirst;
    TiedSearch(FirstLess, (1, 1), (1, 2));
    TiedPolling(FirstLess, (1, 1), (1, 2));
  }

  lemma TiedPolling<T>(lt: (T, T) -> bool, a: T, b: T)
    requires !lt(a, b) && !lt(b, a) && !lt(a, a)
    ensures Drain(lt, [a, a, b]) == [a, b, a]
  {
    PollThree(lt, a, a, b);
    PollTwo(lt, b, a);
    PollTwo(lt, a, a);
    hide Poll;
    assert Drain(lt, [a]) == [a] + Drain(lt, Poll(lt, [a]));
    assert Drain(lt, [b, a]) == [b] + Drain(lt, [a]);
    assert Drain(lt, [a, a, b]) == [a] + Drain(lt, [b, a]);
  }

  lemma PollThree<T>(lt: (T, T) -> bool, x: T, y: T, z: T)
    requires !lt(y, z)
    ensures Poll(lt, [x, y, z]) == [z, y]
  {
    assert LastToRoot([x, y, z]) == [z, y];
    assert SiftDown(lt, [z, y], 0) == [z, y];
  }

  lemma PollTwo<T>(lt: (T, T) -> bool, x: T, y: T)
    ensures Poll(lt, [x, y]) == [y] && Poll(lt, [x]) == []
  {
    assert LastToRoot([x, y]) == [y];
    assert SiftDown(lt, [y], 0) == [y];
  }

  lemma TiedFirst(lt: (nat, nat) -> bool)
    requires !lt(2, 1)
    ensures Advance(lt, [0], 3) == [1, 2]
  {
    hide Poll, SiftUp;
    var none: seq<nat>, one: seq<nat>, both: seq<nat> := [], [1], [1, 2];
    PollOne(lt, 0);
    JoinBehind(lt, none, 1);
    JoinBehind(lt, one, 2);
    assert none + [1] == one && one + [2] == both;
    assert Joined(lt, none, 1, 3) == one && Joined(lt, one, 2, 3) == both;
    hide Joined;
  }

  lemma TiedSecond(lt: (nat, nat) -> bool)
    ensures Advance(lt, [1, 2], 3) == [2]
  {
    assert LastToRoot([1, 2]) == [2];
    assert SiftDown(lt, [2], 0) == [2];
  }

  lemma PollOne(lt: (nat, nat) -> bool, i: nat)
    ensures Poll(lt, [i]) == []
  {}

  /** A position that is not before the first one joins behind it. */
  lemma JoinBehind(lt: (nat, nat) -> bool, front: seq<nat>, i: nat)
    requires |front| <= 1 && (|front| == 1 ==> !lt(i, front[0]))
    ensures SiftUp(lt, front + [i], |front|) == front + [i]
  {}

  lemma TiedSearch<T(!new)>(lt: (T, T) -> bool, a: T, b: T)
    requires !lt(a, b) && !lt(b, a) && !lt(a, a)
    ensures BestFirst(lt, [a, a, b], [0], 3) == [a, a, b]
  {
    var s := [a, a, b];
    var items := ByItem(lt, s);
    assert At(s, 0) == a && At(s, 1) == a && At(s, 2) == b;
    assert items(2, 1) == lt(At(s, 2), At(s, 1));
    TiedFirst(items);
    TiedSecond(items);
    hide Advance, ByItem, At;
    assert BestFirst(lt, s, [2], 1) == [b] + BestFirst(lt, s, Advance(items, [2], 3), 0);
    assert BestFirst(lt, s, [1, 2], 2) == [a] + BestFirst(lt, s, [2], 1);
    assert BestFirst(lt, s, [0], 3) == [a] + BestFirst(lt, s, [1, 2], 2);
  }

  /** `kSmallest` gives what repeated polling gives on EVERY heap exactly when the order tells all items apart. */
  lemma SearchIsPollingIffNoTies<T(!new)>(lt: (T, T) -> bool)
    requires StrictWeakOrder(lt)
    ensures (forall s: seq<T>, k: nat :: 0 < |s| && k <= |s| && IsHeap(lt, s) ==> BestFirst(lt, s, [0], k) <= Drain(lt, s))
       <==> (forall a, b :: !lt(a, b) && !lt(b, a) ==> a == b)
  {
    hide BestFirst, Drain;
    if forall a, b :: !lt(a, b) && !lt(b, a) ==> a == b {
      forall s: seq<T>, k: nat | 0 < |s| && k <= |s| && IsHeap(lt, s) ensures BestFirst(lt, s, [0], k) <= Drain(lt, s) {
        BestFirstSelects(lt, s, k);
        KSmallestIsPolling(lt, s, k, BestFirst(lt, s, [0], k));
      }
    } else {
      var a, b :| !lt(a, b) && !lt(b, a) && a != b;
      var s := [a, a, b];
      TiedSearch(lt, a, b);
      TiedPolling(lt, a, b);
      assert IsHeap(lt, s);
      assert [a, a, b][1] != [a, b, a][1];
      assert !(BestFirst(lt, s, [0], 3) <= Drain(lt, s));
    }
  }
}
