/** What whole uses of a heap amount to: draining it, removing the items a callback selects while
    scanning the array, and reading off the k smallest. */
module HeapScans {
  import opened Heaps

  ghost predicate Sorted<T>(lt: (T, T) -> bool, s: seq<T>) {
    forall i, j :: 0 <= i < j < |s| ==> !lt(s[j], s[i])
  }

  // ---------------------------------------------------------------- draining

  /** Polling until the queue is empty. */
  function Drain<T>(lt: (T, T) -> bool, s: seq<T>): (r: seq<T>)
    ensures |r| == |s|
    decreases |s|
  {
    if |s| == 0 then [] else [s[0]] + Drain(lt, Poll(lt, s))
  }

  lemma DrainUnfold<T>(lt: (T, T) -> bool, s: seq<T>, before: seq<T>)
    requires |s| > 0
    ensures before + Drain(lt, s) == (before + [s[0]]) + Drain(lt, Poll(lt, s))
  {
    hide Poll;
    ConcatAssoc(before, [s[0]], Drain(lt, Poll(lt, s)));
  }

  lemma ConcatAssoc<T>(a: seq<T>, b: seq<T>, c: seq<T>)
    ensures a + (b + c) == (a + b) + c
  {}

  lemma {:induction false} DrainPermutes<T>(lt: (T, T) -> bool, s: seq<T>)
    ensures multiset(Drain(lt, s)) == multiset(s)
    decreases |s|
  {
    if |s| > 0 {
      DrainPermutes(lt, Poll(lt, s));
      assert multiset([s[0]] + Drain(lt, Poll(lt, s))) == multiset{s[0]} + multiset(Drain(lt, Poll(lt, s)));
    }
  }

  /** Draining a heap yields its items (DrainPermutes) in non-decreasing order. */
  lemma {:induction false} DrainSorts<T(!new)>(lt: (T, T) -> bool, s: seq<T>)
    requires StrictWeakOrder(lt) && IsHeap(lt, s)
    ensures Sorted(lt, Drain(lt, s))
    decreases |s|
  {
    if |s| > 0 {
      var t := Poll(lt, s);
      PollKeepsHeap(lt, s);
      assert multiset(t) <= multiset(s);
      hide Poll;
      DrainSorts(lt, t);
      DrainPermutes(lt, t);
      var d := Drain(lt, t);
      forall i | 0 <= i < |d| ensures !lt(d[i], s[0]) {
        LeastOf(lt, s, t, d, i);
      }
      hide StrictWeakOrder, IsHeap;
      SortedCons(lt, s[0], d);
    }
  }

  lemma SortedCons<T>(lt: (T, T) -> bool, x: T, d: seq<T>)
    requires Sorted(lt, d) && forall i :: 0 <= i < |d| ==> !lt(d[i], x)
    ensures Sorted(lt, [x] + d)
  {}

  lemma LeastOf<T(!new)>(lt: (T, T) -> bool, s: seq<T>, t: seq<T>, d: seq<T>, i: nat)
    requires StrictWeakOrder(lt) && IsHeap(lt, s) && |s| > 0
    requires multiset(t) <= multiset(s) && multiset(d) == multiset(t) && i < |d|
    ensures !lt(d[i], s[0])
  {
    assert d[i] in multiset(d);
    assert d[i] in multiset(s);
    var j :| 0 <= j < |s| && s[j] == d[i];
    RootIsLeast(lt, s, j);
  }

  // ---------------------------------------------------------------- removing while scanning

  /** The scan of `_batchRemove` from index `i` with room for `room` more results:
      the removed items in order, and the items left. */
  function Scan<T>(lt: (T, T) -> bool, s: seq<T>, match_: T -> bool, i: nat, room: nat): (r: (seq<T>, seq<T>))
    decreases |s|, |s| - i
  {
    if i >= |s| || room == 0 then ([], s)
    else if match_(s[i]) then
      var rest := Scan(lt, RemoveAt(lt, s, i), match_, i / 2, room - 1);
      ([s[i]] + rest.0, rest.1)
    else Scan(lt, s, match_, i + 1, room)
  }

  /** What is removed so far and the rest of the scan make up `whole`. */
  ghost predicate Scanning<T>(lt: (T, T) -> bool, s: seq<T>, match_: T -> bool, i: nat, room: nat, before: seq<T>,
                              whole: (seq<T>, seq<T>)) {
    var rest := Scan(lt, s, match_, i, room);
    before + rest.0 == whole.0 && rest.1 == whole.1
  }

  lemma ScanStarts<T>(lt: (T, T) -> bool, s: seq<T>, match_: T -> bool, room: nat)
    ensures Scanning(lt, s, match_, 0, room, [], Scan(lt, s, match_, 0, room))
  {
    hide Scan;
  }

  lemma ScanTakes<T>(lt: (T, T) -> bool, s: seq<T>, match_: T -> bool, i: nat, room: nat, before: seq<T>,
      whole: (seq<T>, seq<T>))
    requires Scanning(lt, s, match_, i, room, before, whole) && i < |s| && room > 0 && match_(s[i])
    ensures Scanning(lt, RemoveAt(lt, s, i), match_, i / 2, room - 1, before + [s[i]], whole)
  {
    hide RemoveAt;
    ConcatAssoc(before, [s[i]], Scan(lt, RemoveAt(lt, s, i), match_, i / 2, room - 1).0);
  }

  lemma ScanPasses<T>(lt: (T, T) -> bool, s: seq<T>, match_: T -> bool, i: nat, room: nat, before: seq<T>,
      whole: (seq<T>, seq<T>))
    requires Scanning(lt, s, match_, i, room, before, whole) && i < |s| && room > 0 && !match_(s[i])
    ensures Scanning(lt, s, match_, i + 1, room, before, whole)
  {}

  lemma ScanEnds<T>(lt: (T, T) -> bool, s: seq<T>, match_: T -> bool, i: nat, room: nat, before: seq<T>,
      whole: (seq<T>, seq<T>))
    requires Scanning(lt, s, match_, i, room, before, whole) && (i >= |s| || room == 0)
    ensures (before, s) == whole
  {
    assert before + [] == before;
  }

  function BatchRemove<T>(lt: (T, T) -> bool, s: seq<T>, match_: T -> bool, limit: nat): (r: (seq<T>, seq<T>)) {
    Scan(lt, s, match_, 0, if limit == 0 then |s| else limit)
  }

  /** Whatever the callback, the scan only removes matching items, loses none, respects its limit
      and leaves a heap. */
  lemma {:induction false} ScanSound<T(!new)>(lt: (T, T) -> bool, s: seq<T>, match_: T -> bool, i: nat, room: nat)
    requires StrictWeakOrder(lt) && IsHeap(lt, s)
    ensures var (removed, left) := Scan(lt, s, match_, i, room);
      && IsHeap(lt, left)
      && multiset(removed) + multiset(left) == multiset(s)
      && |removed| <= room
      && (forall x :: x in removed ==> match_(x))
    decreases |s|, |s| - i
  {
    hide StrictWeakOrder, IsHeap, RemoveAt;
    if i >= |s| || room == 0 {
    } else if match_(s[i]) {
      RemoveAtKeepsHeap(lt, s, i);
      var t := RemoveAt(lt, s, i);
      ScanSound(lt, t, match_, i / 2, room - 1);
      var (removed, left) := Scan(lt, t, match_, i / 2, room - 1);
      assert multiset([s[i]] + removed) == multiset{s[i]} + multiset(removed);
    } else {
      ScanSound(lt, s, match_, i + 1, room);
    }
  }

  /** With room for one result the scan removes the first match in array order, if there is one. */
  lemma {:induction false} ScanOneFindsFirst<T>(lt: (T, T) -> bool, s: seq<T>, match_: T -> bool, i: nat)
    requires forall j :: 0 <= j < i && j < |s| ==> !match_(s[j])
    ensures var (removed, left) := Scan(lt, s, match_, i, 1);
      if exists j :: 0 <= j < |s| && match_(s[j])
      then exists j :: 0 <= j < |s| && match_(s[j]) && (forall m :: 0 <= m < j ==> !match_(s[m]))
                       && removed == [s[j]] && left == RemoveAt(lt, s, j)
      else removed == [] && left == s
    decreases |s| - i
  {
    hide RemoveAt;
    if i >= |s| {
    } else if match_(s[i]) {
      assert Scan(lt, s, match_, i, 1).0 == [s[i]];
    } else {
      ScanOneFindsFirst(lt, s, match_, i + 1);
    }
  }

  // ---------------------------------------------------------------- when the scan finds every match

  /** No matching item lies, in the weak order, between two items that do not match. */
  ghost predicate NoMatchBetween<T(!new)>(lt: (T, T) -> bool, match_: T -> bool) {
    forall r, x, a :: !match_(r) && match_(x) && !match_(a) && !lt(x, r) ==> lt(a, x)
  }

  /** The same for the items of one queue only. */
  ghost predicate NoMatchBetweenIn<T>(lt: (T, T) -> bool, match_: T -> bool, items: multiset<T>) {
    forall r, x, a | r in items && x in items && a in items ::
      !match_(r) && match_(x) && !match_(a) && !lt(x, r) ==> lt(a, x)
  }

  /** Every item of `s` that does not match is less than every one that does. */
  ghost predicate MatchesOnTop<T(!new)>(lt: (T, T) -> bool, s: multiset<T>, match_: T -> bool) {
    forall a, x :: a in s && x in s && !match_(a) && match_(x) ==> lt(a, x) && !lt(x, a)
  }

  /** Sifting down from `c`, the only position up to `i` whose item may match, keeps the first half clean. */
  lemma {:induction false} SiftDownPastSeen<T(!new)>(lt: (T, T) -> bool, s: seq<T>, match_: T -> bool, c: nat, i: nat)
    requires MatchesOnTop(lt, multiset(s), match_) && i <= |s|
    requires forall j :: 0 <= j <= i && j < |s| && j != c ==> !match_(s[j])
    ensures forall j :: 0 <= j < i / 2 ==> !match_(SiftDown(lt, s, c)[j])
    decreases |s| - c
  {
    if c < i / 2 {
      var b := BestChild(lt, s, c);
      assert b <= i;
      if lt(s[b], s[c]) {
        var t := Swap(s, c, b);
        assert SiftDown(lt, s, c) == SiftDown(lt, t, b);
        SwapPermutes(s, c, b);
        hide MatchesOnTop, SiftDown;
        SiftDownPastSeen(lt, t, match_, b, i);
      } else {
        assert SiftDown(lt, s, c) == s;
        assert s[b] in multiset(s) && s[c] in multiset(s);
      }
    } else {
      var r := SiftDown(lt, s, c);
      hide SiftDown, MatchesOnTop;
      forall j | 0 <= j < i / 2 ensures !match_(r[j]) { assert r[j] == s[j]; }
    }
  }

  lemma PollPastSeen<T(!new)>(lt: (T, T) -> bool, t: seq<T>, match_: T -> bool, i: nat)
    requires 0 < i < |t| && MatchesOnTop(lt, multiset(t), match_)
    requires forall j :: 0 < j <= i ==> !match_(t[j])
    ensures forall j :: 0 <= j < i / 2 ==> !match_(Poll(lt, t)[j])
  {
    var u := LastToRoot(t);
    assert Poll(lt, t) == SiftDown(lt, u, 0);
    forall x | x in multiset(u) ensures x in multiset(t) {}
    hide SiftDown, Poll;
    SiftDownPastSeen(lt, u, match_, 0, i);
  }

  lemma RemoveAtKeepsSeen<T(!new)>(lt: (T, T) -> bool, s: seq<T>, match_: T -> bool, i: nat)
    requires 0 < i < |s| && match_(s[i]) && MatchesOnTop(lt, multiset(s), match_)
    requires forall j :: 0 <= j < i ==> !match_(s[j])
    ensures forall j :: 0 <= j < i / 2 ==> !match_(RemoveAt(lt, s, i)[j])
  {
    RaisePermutes(s, i);
    hide MatchesOnTop, SiftDown, Poll;
    PollPastSeen(lt, Raise(s, i), match_, i);
  }

  lemma MatchesRiseAboveRoot<T(!new)>(lt: (T, T) -> bool, s: seq<T>, match_: T -> bool)
    requires StrictWeakOrder(lt) && IsHeap(lt, s) && |s| > 0 && !match_(s[0])
    requires NoMatchBetweenIn(lt, match_, multiset(s))
    ensures MatchesOnTop(lt, multiset(s), match_)
  {
    forall a, x | a in multiset(s) && x in multiset(s) && !match_(a) && match_(x) ensures lt(a, x) {
      var m :| 0 <= m < |s| && s[m] == x;
      RootIsLeast(lt, s, m);
    }
  }

  lemma NoMatchBetweenFewer<T>(lt: (T, T) -> bool, match_: T -> bool, items: multiset<T>, fewer: multiset<T>)
    requires NoMatchBetweenIn(lt, match_, items) && fewer <= items
    ensures NoMatchBetweenIn(lt, match_, fewer)
  {
    forall x | x in fewer ensures x in items {}
  }

  /** When the items allow it and the limit is not reached, no match is left behind. */
  lemma {:induction false} ScanFindsAll<T(!new)>(lt: (T, T) -> bool, s: seq<T>, match_: T -> bool, i: nat, room: nat)
    requires StrictWeakOrder(lt) && IsHeap(lt, s) && NoMatchBetweenIn(lt, match_, multiset(s))
    requires forall j :: 0 <= j < i && j < |s| ==> !match_(s[j])
    requires |Scan(lt, s, match_, i, room).0| < room
    ensures forall x :: x in Scan(lt, s, match_, i, room).1 ==> !match_(x)
    decreases |s|, |s| - i
  {
    hide StrictWeakOrder, IsHeap, RemoveAt, NoMatchBetweenIn, MatchesOnTop;
    if i >= |s| {
    } else if match_(s[i]) {
      var t := RemoveAt(lt, s, i);
      RemoveAtKeepsHeap(lt, s, i);
      assert multiset(t) <= multiset(s);
      NoMatchBetweenFewer(lt, match_, multiset(s), multiset(t));
      if i > 0 {
        MatchesRiseAboveRoot(lt, s, match_);
        RemoveAtKeepsSeen(lt, s, match_, i);
      }
      ScanFindsAll(lt, t, match_, i / 2, room - 1);
    } else {
      ScanFindsAll(lt, s, match_, i + 1, room);
    }
  }

  /** `removeMany` on one queue: with no limit, or one that is not reached, every match goes when none of the
      queue's matches lies between two of its items that do not match. */
  lemma BatchRemoveFindsAll<T(!new)>(lt: (T, T) -> bool, s: seq<T>, match_: T -> bool, limit: nat)
    requires StrictWeakOrder(lt) && IsHeap(lt, s) && NoMatchBetweenIn(lt, match_, multiset(s))
    requires limit == 0 || |BatchRemove(lt, s, match_, limit).0| < limit
    ensures forall x :: x in BatchRemove(lt, s, match_, limit).1 ==> !match_(x)
  {
    var room := if limit == 0 then |s| else limit;
    hide Scan, IsHeap, StrictWeakOrder, NoMatchBetweenIn;
    var (removed, left) := Scan(lt, s, match_, 0, room);
    ScanSound(lt, s, match_, 0, room);
    if |removed| < room {
      ScanFindsAll(lt, s, match_, 0, room);
    } else {
      assert |multiset(removed) + multiset(left)| == |multiset(s)|;
      assert |left| == 0;
    }
  }

  lemma {:induction false} ScanSkips<T>(lt: (T, T) -> bool, s: seq<T>, match_: T -> bool, i: nat, j: nat, room: nat)
    requires i <= j <= |s| && room > 0
    requires forall m :: i <= m < j ==> !match_(s[m])
    ensures Scan(lt, s, match_, i, room) == Scan(lt, s, match_, j, room)
    decreases j - i
  {
    hide RemoveAt;
    if i < j { ScanSkips(lt, s, match_, i + 1, j, room); }
  }

  /** The heap [r, r, r, a, a, x, x], on which the scan fails. */
  ghost predicate BadHeap<T>(s: seq<T>, r: T, x: T, a: T) {
    |s| == 7 && s[0] == s[1] == s[2] == r && s[3] == s[4] == a && s[5] == s[6] == x
  }

  lemma BadHeapRaised<T>(s: seq<T>, r: T, x: T, a: T)
    requires BadHeap(s, r, x, a)
    ensures var t := Raise(s, 5); t[0] == t[6] == x && t[1] == t[2] == t[5] == r && t[3] == t[4] == a
  {
    var m := Swap(s, 5, 2);
    assert m[2] == x && m[5] == r;
    var t := Swap(m, 2, 0);
    assert Raise(s, 5) == Raise(m, 2);
    assert Raise(m, 2) == Raise(t, 0);
    assert t[1] == m[1] && t[3] == m[3] && t[4] == m[4] && t[5] == m[5] && t[6] == m[6];
  }

  lemma BadHeapSifted<T(!new)>(lt: (T, T) -> bool, u: seq<T>, r: T, x: T, a: T)
    requires |u| == 6 && u[0] == x && u[1] == u[2] == u[5] == r && u[3] == u[4] == a
    requires !lt(r, r) && !lt(a, a) && !lt(a, x)
    ensures var w := SiftDown(lt, u, 0);
      && w[2] == w[5] == r && w[3] == w[4] == a
      && (if lt(r, x) then w[0] == r && w[1] == x else w[0] == x && w[1] == r)
  {
    assert BestChild(lt, u, 0) == 1;
    if lt(r, x) {
      var w := Swap(u, 0, 1);
      assert w[0] == r && w[1] == x && w[3] == a && w[4] == a;
      assert SiftDown(lt, u, 0) == SiftDown(lt, w, 1);
      assert SiftDown(lt, w, 1) == w;
    }
  }

  lemma BadHeapRemoval<T(!new)>(lt: (T, T) -> bool, s: seq<T>, r: T, x: T, a: T)
    requires BadHeap(s, r, x, a) && !lt(r, r) && !lt(a, a) && !lt(a, x)
    ensures var w := RemoveAt(lt, s, 5);
      && w[2] == w[5] == r && w[3] == w[4] == a && (w[0] == x || w[1] == x)
  {
    BadHeapRaised(s, r, x, a);
    BadHeapSifted(lt, LastToRoot(Raise(s, 5)), r, x, a);
    hide SiftDown;
    assert RemoveAt(lt, s, 5) == SiftDown(lt, LastToRoot(Raise(s, 5)), 0);
  }

  lemma ScanSkipsToEnd<T>(lt: (T, T) -> bool, w: seq<T>, match_: T -> bool)
    requires |w| == 6 && !match_(w[2]) && !match_(w[3]) && !match_(w[4]) && !match_(w[5])
    ensures Scan(lt, w, match_, 2, 6) == ([], w)
  {
    ScanSkips(lt, w, match_, 2, 6, 6);
  }

  /** Whenever a match `x` lies between two items `r` and `a` that do not match, this heap makes the
      scan step over one of its two copies of `x`. */
  lemma ScanMisses<T(!new)>(lt: (T, T) -> bool, match_: T -> bool, s: seq<T>, r: T, x: T, a: T)
    requires !lt(r, r) && !lt(a, a) && BadHeap(s, r, x, a)
    requires !match_(r) && match_(x) && !match_(a) && !lt(a, x)
    ensures x in BatchRemove(lt, s, match_, 0).1
  {
    ScanSkips(lt, s, match_, 0, 5, 7);
    BadHeapRemoval(lt, s, r, x, a);
    var w := RemoveAt(lt, s, 5);
    ScanSkipsToEnd(lt, w, match_);
    hide RemoveAt;
    assert BatchRemove(lt, s, match_, 0).1 == w;
  }

  /** `removeMany` without a limit removes every match of EVERY heap exactly when no matching item lies
      between two that do not match. */
  lemma RemovesAllIffNoMatchBetween<T(!new)>(lt: (T, T) -> bool, match_: T -> bool)
    requires StrictWeakOrder(lt)
    ensures (forall s, x :: IsHeap(lt, s) && x in BatchRemove(lt, s, match_, 0).1 ==> !match_(x))
       <==> NoMatchBetween(lt, match_)
  {
    if NoMatchBetween(lt, match_) {
      forall s, x | IsHeap(lt, s) && x in BatchRemove(lt, s, match_, 0).1 ensures !match_(x) {
        BatchRemoveFindsAll(lt, s, match_, 0);
      }
    } else {
      var r, x, a :| !match_(r) && match_(x) && !match_(a) && !lt(x, r) && !lt(a, x);
      var s := [r, r, r, a, a, x, x];
      ScanMisses(lt, match_, s, r, x, a);
      NotLessTrans(lt, a, x, r);
      assert IsHeap(lt, s) && x in BatchRemove(lt, s, match_, 0).1;
    }
  }

  // ---------------------------------------------------------------- the k smallest

  /** `r` lists min(k, |s|) of the items of `s` in non-decreasing order, none of the others being less. */
  ghost predicate KSmallest<T>(lt: (T, T) -> bool, s: seq<T>, k: nat, r: seq<T>) {
    && |r| == (if k < |s| then k else |s|)
    && Sorted(lt, r)
    && multiset(r) <= multiset(s)
    && (forall x, y :: x in r && y in multiset(s) - multiset(r) ==> !lt(y, x))
  }

  function Count<T>(s: seq<T>, p: T -> bool): (n: nat)
    ensures n <= |s|
  {
    if |s| == 0 then 0 else (if p(s[0]) then 1 else 0) + Count(s[1..], p)
  }

  lemma {:induction false} CountConcat<T>(a: seq<T>, b: seq<T>, p: T -> bool)
    ensures Count(a + b, p) == Count(a, p) + Count(b, p)
  {
    if |a| == 0 {
      assert a + b == b;
    } else {
      assert (a + b)[1..] == a[1..] + b;
      CountConcat(a[1..], b, p);
    }
  }

  lemma CountCons<T>(x: T, s: seq<T>, p: T -> bool)
    ensures Count([x] + s, p) == (if p(x) then 1 else 0) + Count(s, p)
  {
    assert ([x] + s)[1..] == s;
  }

  lemma CountWithout<T>(b: seq<T>, i: nat, p: T -> bool)
    requires i < |b|
    ensures Count(b, p) == (if p(b[i]) then 1 else 0) + Count(b[..i] + b[i + 1..], p)
    ensures multiset(b) == multiset{b[i]} + multiset(b[..i] + b[i + 1..])
  {
    hide Count;
    var lo, hi := b[..i], b[i + 1..];
    SplitAt(b, i);
    CountConcat(lo, [b[i]] + hi, p);
    CountCons(b[i], hi, p);
    CountConcat(lo, hi, p);
  }

  lemma SplitAt<T>(b: seq<T>, i: nat)
    requires i < |b|
    ensures b == b[..i] + ([b[i]] + b[i + 1..])
    ensures multiset(b) == multiset{b[i]} + multiset(b[..i] + b[i + 1..])
  {
    assert b == b[..i] + ([b[i]] + b[i + 1..]);
  }

  lemma {:induction false} CountPermutation<T>(a: seq<T>, b: seq<T>, p: T -> bool)
    requires multiset(a) == multiset(b)
    ensures Count(a, p) == Count(b, p)
  {
    if |a| == 0 {
      assert |multiset(b)| == 0;
    } else {
      assert a[0] in multiset(b);
      var i :| 0 <= i < |b| && b[i] == a[0];
      CountWithout(b, i, p);
      assert a == [a[0]] + a[1..];
      assert multiset([a[0]] + a[1..]) == multiset{a[0]} + multiset(a[1..]);
      var c := b[..i] + b[i + 1..];
      assert multiset(a[1..]) == multiset(b) - multiset{a[0]} == multiset(c);
      CountPermutation(a[1..], c, p);
    }
  }

  lemma {:induction false} CountNone<T>(s: seq<T>, p: T -> bool)
    requires forall i :: 0 <= i < |s| ==> !p(s[i])
    ensures Count(s, p) == 0
  {
    if |s| > 0 { CountNone(s[1..], p); }
  }

  lemma {:induction false} CountAll<T>(s: seq<T>, p: T -> bool)
    requires forall i :: 0 <= i < |s| ==> p(s[i])
    ensures Count(s, p) == |s|
  {
    if |s| > 0 { CountAll(s[1..], p); }
  }

  lemma {:induction false} ListOf<T>(m: multiset<T>) returns (q: seq<T>)
    ensures multiset(q) == m
    decreases |m|
  {
    if |m| == 0 {
      q := [];
    } else {
      var x :| x in m;
      q := ListOf(m - multiset{x});
      q := [x] + q;
    }
  }

  /** The first `j+1` items of `a` satisfy `p`, those of `b` from `j` on do not: their counts differ. */
  lemma CountsDiffer<T>(a: seq<T>, b: seq<T>, j: nat, p: T -> bool)
    requires j < |a| && j < |b|
    requires forall i :: 0 <= i <= j ==> p(a[i])
    requires forall i :: j <= i < |b| ==> !p(b[i])
    ensures Count(a, p) > j >= Count(b, p)
  {
    assert a == a[..j + 1] + a[j + 1..] && b == b[..j] + b[j..];
    CountConcat(a[..j + 1], a[j + 1..], p);
    CountConcat(b[..j], b[j..], p);
    CountAll(a[..j + 1], p);
    CountNone(b[j..], p);
  }

  /** `kSmallest(k)` is "the equivalent of repeatedly calling poll": position by position the two lists
      hold items neither of which is less than the other. */
  lemma KSmallestAgreesWithPolling<T(!new)>(lt: (T, T) -> bool, s: seq<T>, k: nat, r: seq<T>, j: nat)
    requires StrictWeakOrder(lt) && IsHeap(lt, s) && KSmallest(lt, s, k, r) && j < |r|
    ensures !lt(r[j], Drain(lt, s)[j]) && !lt(Drain(lt, s)[j], r[j])
  {
    var d := Drain(lt, s);
    DrainSorts(lt, s);
    DrainPermutes(lt, s);
    var q := ListOf(multiset(s) - multiset(r));
    forall y | y in q ensures !lt(y, r[j]) {
      assert y in multiset(q) && r[j] in r;
    }
    assert multiset(r + q) == multiset(s);
    hide IsHeap, KSmallest, Drain;
    SortedPrefixesAgree(lt, r, q, d, j);
  }

  /** Where items the order cannot tell apart are equal, the two lists are equal. */
  lemma KSmallestIsPolling<T(!new)>(lt: (T, T) -> bool, s: seq<T>, k: nat, r: seq<T>)
    requires StrictWeakOrder(lt) && IsHeap(lt, s) && KSmallest(lt, s, k, r)
    requires forall a, b :: a in s && b in s && !lt(a, b) && !lt(b, a) ==> a == b
    ensures r <= Drain(lt, s)
  {
    var d := Drain(lt, s);
    DrainPermutes(lt, s);
    hide StrictWeakOrder, IsHeap, Drain;
    forall j | 0 <= j < |r| ensures r[j] == d[j] {
      KSmallestAgreesWithPolling(lt, s, k, r, j);
      assert r[j] in multiset(r) && d[j] in multiset(d);
      assert r[j] in multiset(s) && d[j] in multiset(s);
    }
  }

  /** Two lists of the same items, `d` sorted and `r` a sorted prefix with nothing less after it, agree up
      to the order's indifference. */
  lemma SortedPrefixesAgree<T(!new)>(lt: (T, T) -> bool, r: seq<T>, q: seq<T>, d: seq<T>, j: nat)
    requires StrictWeakOrder(lt) && j < |r| && |r| <= |d| && multiset(r + q) == multiset(d) && Sorted(lt, r) && Sorted(lt, d)
    requires forall y :: y in q ==> !lt(y, r[j])
    ensures !lt(r[j], d[j]) && !lt(d[j], r[j])
  {
    var a := r + q;
    if lt(r[j], d[j]) {
      var p := y => lt(y, d[j]);
      CountPermutation(a, d, p);
      CountsDiffer(a, d, j, p);
    }
    if lt(d[j], r[j]) {
      var p := y => !lt(d[j], y);
      CountPermutation(d, a, p);
      CountsDiffer(d, a, j, p);
    }
  }
}
